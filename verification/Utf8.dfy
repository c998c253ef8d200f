/** The UTF-8 encoder, decoder and checker, against the grammar of RFC 3629. */
module Utf8 {
  import opened Arith
  import Bits
  import opened Bytes

  // ----- RFC 3629, section 4: syntax of UTF-8 byte sequences

  predicate Tail(b: Byte) { 0x80 <= b <= 0xBF }

  /** What may follow a lead byte directly. */
  predicate Second(b0: Byte, b1: Byte) {
    if b0 == 0xE0 then 0xA0 <= b1 <= 0xBF
    else if b0 == 0xED then 0x80 <= b1 <= 0x9F
    else if b0 == 0xF0 then 0x90 <= b1 <= 0xBF
    else if b0 == 0xF4 then 0x80 <= b1 <= 0x8F
    else Tail(b1)
  }

  /** The number of bytes a lead byte announces, 0 if it cannot start a character. */
  function Announced(b: Byte): (n: nat)
    ensures n <= 4
  {
    if b <= 0x7F then 1
    else if 0xC2 <= b <= 0xDF then 2
    else if 0xE0 <= b <= 0xEF then 3
    else if 0xF0 <= b <= 0xF4 then 4
    else 0
  }

  /** One UTF8-char of the grammar. */
  predicate Utf8Char(c: seq<Byte>) {
    && c != [] && Announced(c[0]) == |c|
    && (|c| > 1 ==> Second(c[0], c[1]))
    && (|c| > 2 ==> Tail(c[2]))
    && (|c| > 3 ==> Tail(c[3]))
  }

  /** UTF8-octets: any number of characters one behind the other. */
  ghost predicate Derivable(s: seq<Byte>) {
    exists chars: seq<seq<Byte>> :: (forall i :: 0 <= i < |chars| ==> Utf8Char(chars[i])) && Flatten(chars) == s
  }

  // ----- RFC 3629, section 3: the code point of a character

  predicate ScalarValue(c: int) {
    0 <= c <= 0x10FFFF && !(0xD800 <= c <= 0xDFFF)
  }

  function Value(c: seq<Byte>): (v: int)
    requires Utf8Char(c)
    ensures ScalarValue(v)
    ensures v == 0 <==> c == [0]
  {
    var c0: int := c[0];
    if |c| == 1 then c0
    else
      var c1: int := c[1];
      if |c| == 2 then (c0 - 0xC0) * 64 + (c1 - 0x80)
      else
        var c2: int := c[2];
        if |c| == 3 then (c0 - 0xE0) * 4096 + (c1 - 0x80) * 64 + (c2 - 0x80)
        else
          var c3: int := c[3];
          (c0 - 0xF0) * 262144 + (c1 - 0x80) * 4096 + (c2 - 0x80) * 64 + (c3 - 0x80)
  }

  // ----- decoding a C string

  /** The length of the character that starts at `p`, 0 if there is none. */
  function CharLen(s: CStr, p: nat): (n: nat)
    requires p < |s|
    ensures n > 0 ==> p + n <= |s| && Utf8Char(s[p..p + n])
    ensures n == 0 ==> forall k :: p < k <= |s| ==> !Utf8Char(s[p..k])
  {
    var n := Announced(s[p]);
    if n > 0 && p + n <= |s| && Utf8Char(s[p..p + n]) then n else 0
  }

  /** Where decoding stops after an error: behind the longest start of a character, and behind one byte at least. */
  function ErrorEnd(s: CStr, p: nat): (q: nat)
    requires p < |s| && CharLen(s, p) == 0
    ensures p < q <= |s|
  {
    var n := Announced(s[p]);
    if n < 2 || p + 1 == |s| || !Second(s[p], s[p + 1]) then p + 1
    else if p + 2 == |s| || !Tail(s[p + 2]) then p + 2
    else p + 3
  }

  /** `x` is the start of a character, or all of it. */
  ghost predicate StartsChar(x: seq<Byte>) {
    exists c :: Utf8Char(c) && x <= c
  }

  /** An error takes up one byte, or as many as could have been the start of a character and not one more. */
  lemma ErrorEndIsLongest(s: CStr, p: nat)
    requires p < |s| && CharLen(s, p) == 0
    ensures var q := ErrorEnd(s, p);
            (q == p + 1 || StartsChar(s[p..q])) && (q == |s| || !StartsChar(s[p..q + 1]))
  {
    var q, n := ErrorEnd(s, p), Announced(s[p]);
    if q > p + 1 {
      var c := s[p..q] + seq(n - (q - p), _ => 0x80);
      assert Utf8Char(c) && s[p..q] <= c;
    }
    if q < |s| && StartsChar(s[p..q + 1]) {
      StartShape(s[p..q + 1]);
      assert false;
    }
  }

  lemma StartShape(x: seq<Byte>)
    requires x != [] && StartsChar(x)
    ensures |x| <= Announced(x[0]) && (|x| > 1 ==> Second(x[0], x[1]))
    ensures (|x| > 2 ==> Tail(x[2])) && (|x| > 3 ==> Tail(x[3]))
  {
    var c :| Utf8Char(c) && x <= c;
    assert forall i :: 0 <= i < |x| ==> x[i] == c[i];
  }

  /** The code point at `p`, 0 at the terminator and -1 for an error, and where the next one starts. */
  function Decoded(s: CStr, p: nat): (r: (int, nat))
    requires p <= |s|
    ensures p < r.1 <= |s| + 1
    ensures r.0 == 0 <==> p == |s|
    ensures r.1 == |s| + 1 <==> p == |s|
    ensures r.0 == -1 || ScalarValue(r.0)
  {
    if p == |s| then (0, p + 1)
    else if CharLen(s, p) > 0 then
      assert s[p..p + CharLen(s, p)][0] == s[p];
      (Value(s[p..p + CharLen(s, p)]), p + CharLen(s, p))
    else (-1, ErrorEnd(s, p))
  }

  function Pow64(k: nat): nat
    requires k <= 3
  {
    if k == 0 then 1 else if k == 1 then 64 else if k == 2 then 4096 else 262144
  }

  /** What `seen` continuation bytes have contributed to the code point. */
  function Contributed(s: CStr, p: nat, needed: nat, seen: nat): int
    requires 1 <= needed <= 3 && seen <= needed && p + seen < |s|
  {
    (if seen >= 1 then (s[p + 1] - 0x80) * Pow64(needed - 1) else 0)
    + (if seen >= 2 then (s[p + 2] - 0x80) * Pow64(needed - 2) else 0)
    + (if seen >= 3 then (s[p + 3] - 0x80) * Pow64(needed - 3) else 0)
  }

  /** str_utf8_decode; the bytes are read through `At`, so nothing behind the terminator is touched. */
  method Decode(s: CStr, p: nat) returns (codePoint: int, q: nat)
    requires p <= |s|
    ensures (codePoint, q) == Decoded(s, p)
  {
    hide Decoded, Contributed;
    var lower, upper := 0x80, 0xBF;
    var seen, needed := 0, 0;
    codePoint, q := 0, p;
    while true
      invariant seen <= needed <= 3 && (needed > 0 ==> seen < needed)
      invariant needed == 0 ==> q == p && codePoint == 0 && lower == 0x80 && upper == 0xBF
      invariant needed > 0 ==> q == p + 1 + seen && Begun(s, p, needed, seen)
      invariant needed > 0 ==>
        lower == (if seen == 0 && s[p] == 0xE0 then 0xA0 else if seen == 0 && s[p] == 0xF0 then 0x90 else 0x80)
      invariant needed > 0 ==>
        upper == (if seen == 0 && s[p] == 0xED then 0x9F else if seen == 0 && s[p] == 0xF4 then 0x8F else 0xBF)
      invariant needed > 0 ==>
        codePoint == (s[p] - Base(needed)) * Pow64(needed) + Contributed(s, p, needed, seen)
      decreases |s| - q
    {
      var byteValue := At(s, q);
      q := q + 1;
      if needed == 0 {
        LeadDecides(s, p);
        if byteValue <= 0x7F {
          return byteValue, q;
        } else if 0xC2 <= byteValue <= 0xDF {
          needed := 1;
          codePoint := byteValue - 0xC0;
        } else if 0xE0 <= byteValue <= 0xEF {
          if byteValue == 0xE0 {
            lower := 0xA0;
          }
          if byteValue == 0xED {
            upper := 0x9F;
          }
          needed := 2;
          codePoint := byteValue - 0xE0;
        } else if 0xF0 <= byteValue <= 0xF4 {
          if byteValue == 0xF0 {
            lower := 0x90;
          }
          if byteValue == 0xF4 {
            upper := 0x8F;
          }
          needed := 3;
          codePoint := byteValue - 0xF0;
        } else {
          return -1, q;
        }
        codePoint := codePoint * Pow64(needed);
        NothingContributed(s, p, needed);
        continue;
      }
      NextDecides(s, p, needed, seen);
      if !(lower <= byteValue <= upper) {
        q := q - 1;
        return -1, q;
      }
      lower, upper := 0x80, 0xBF;
      ContributedNext(s, p, needed, seen);
      seen := seen + 1;
      codePoint := codePoint + (byteValue - 0x80) * Pow64(needed - seen);
      if seen != needed {
        continue;
      }
      LastDecides(s, p, needed);
      return codePoint, q;
    }
  }

  /** A lead byte that announces `needed` more bytes has been read, and `seen` of them. */
  predicate Begun(s: CStr, p: nat, needed: nat, seen: nat) {
    && p + seen < |s| && seen <= needed && 1 <= needed <= 3 && Announced(s[p]) == needed + 1
    && (seen >= 1 ==> Second(s[p], s[p + 1]))
    && (seen >= 2 ==> Tail(s[p + 2]))
    && (seen >= 3 ==> Tail(s[p + 3]))
  }

  lemma NothingContributed(s: CStr, p: nat, needed: nat)
    requires 1 <= needed <= 3 && p < |s|
    ensures Contributed(s, p, needed, 0) == 0
  {
  }

  lemma ContributedNext(s: CStr, p: nat, needed: nat, seen: nat)
    requires 1 <= needed <= 3 && seen < needed && p + seen + 1 < |s|
    ensures Contributed(s, p, needed, seen + 1)
      == Contributed(s, p, needed, seen) + (s[p + 1 + seen] - 0x80) * Pow64(needed - seen - 1)
  {
  }

  lemma LeadDecides(s: CStr, p: nat)
    requires p <= |s|
    ensures At(s, p) <= 0x7F ==> Decoded(s, p) == (At(s, p) as int, p + 1)
    ensures Announced(At(s, p)) == 0 ==> Decoded(s, p) == (-1, p + 1)
    ensures 1 < Announced(At(s, p)) ==> Begun(s, p, Announced(At(s, p)) - 1, 0)
  {
    if p < |s| {
      assert s[p..p + 1] == [s[p]];
    }
  }

  /** The next byte either continues the character or ends it as an error. */
  lemma NextDecides(s: CStr, p: nat, needed: nat, seen: nat)
    requires Begun(s, p, needed, seen) && seen < needed
    ensures var b := At(s, p + 1 + seen);
            var ok := if seen == 0 then Second(s[p], b) else Tail(b);
            if ok then Begun(s, p, needed, seen + 1) else Decoded(s, p) == (-1, p + 1 + seen)
    ensures var b := At(s, p + 1 + seen); !Tail(b) ==> !(if seen == 0 then Second(s[p], b) else Tail(b))
  {
    hide Value;
    assert CharLen(s, p) > 0 ==> s[p..p + needed + 1][1 + seen] == At(s, p + 1 + seen);
  }

  lemma LastDecides(s: CStr, p: nat, needed: nat)
    requires Begun(s, p, needed, needed)
    ensures Decoded(s, p) == ((s[p] - Base(needed)) * Pow64(needed) + Contributed(s, p, needed, needed), p + needed + 1)
  {
    var c := s[p..p + needed + 1];
    assert c[0] == s[p] && c[1] == s[p + 1];
    assert needed >= 2 ==> c[2] == s[p + 2];
    assert needed >= 3 ==> c[3] == s[p + 3];
    assert Utf8Char(c);
  }

  /** What the code subtracts from a lead byte that announces `needed` more bytes. */
  function Base(needed: nat): int {
    if needed == 1 then 0xC0 else if needed == 2 then 0xE0 else 0xF0
  }

  // ----- checking

  /** `s` is a sequence of characters from `p` on. */
  predicate WellFormedFrom(s: CStr, p: nat)
    requires p <= |s|
    decreases |s| - p
  {
    p == |s| || (CharLen(s, p) > 0 && WellFormedFrom(s, p + CharLen(s, p)))
  }

  predicate WellFormed(s: CStr) {
    WellFormedFrom(s, 0)
  }

  lemma DecodedAgrees(s: CStr, p: nat)
    requires p < |s|
    ensures var (c, q) := Decoded(s, p);
            if c == -1 then !WellFormedFrom(s, p)
            else c > 0 && q <= |s| && (WellFormedFrom(s, p) <==> WellFormedFrom(s, q))
  {
    hide Value, Utf8Char;
  }

  /** str_utf8_check accepts exactly what the grammar derives. */
  method Check(s: CStr) returns (ok: bool)
    ensures ok <==> Derivable(s)
  {
    hide Decoded, WellFormedFrom, Derivable;
    WellFormedIffDerivable(s);
    EndIsWellFormed(s);
    var codePoint, q := Decode(s, 0);
    ghost var p := 0;
    while codePoint != 0
      invariant p <= |s| && (codePoint, q) == Decoded(s, p)
      invariant WellFormed(s) <==> WellFormedFrom(s, p)
      decreases |s| - p
    {
      DecodedAgrees(s, p);
      if codePoint == -1 {
        return false;
      }
      p := q;
      codePoint, q := Decode(s, q);
    }
    return true;
  }

  lemma EndIsWellFormed(s: CStr)
    ensures WellFormedFrom(s, |s|)
  {
  }

  lemma {:induction false} CharsOf(s: CStr, p: nat) returns (chars: seq<seq<Byte>>)
    requires p <= |s| && WellFormedFrom(s, p)
    ensures (forall i :: 0 <= i < |chars| ==> Utf8Char(chars[i])) && Flatten(chars) == s[p..]
    decreases |s| - p
  {
    if p == |s| {
      chars := [];
    } else {
      var n := CharLen(s, p);
      var rest := CharsOf(s, p + n);
      chars := [s[p..p + n]] + rest;
      assert chars[1..] == rest;
      assert s[p..] == s[p..p + n] + s[p + n..];
    }
  }

  lemma CharFound(s: CStr, p: nat, c: seq<Byte>)
    requires p <= |s| && |c| <= |s| - p && s[p..][..|c|] == c && Utf8Char(c)
    ensures p < |s| && CharLen(s, p) == |c|
  {
    assert s[p] == c[0];
    assert s[p..p + |c|] == c;
  }

  lemma {:induction false} DerivableIsWellFormed(s: CStr, p: nat, chars: seq<seq<Byte>>)
    requires p <= |s| && Flatten(chars) == s[p..]
    requires forall i :: 0 <= i < |chars| ==> Utf8Char(chars[i])
    ensures WellFormedFrom(s, p)
    decreases |chars|
  {
    hide Utf8Char, CharLen;
    if chars != [] {
      var c := chars[0];
      assert s[p..] == c + Flatten(chars[1..]);
      assert s[p..][..|c|] == c;
      CharFound(s, p, c);
      assert s[p + |c|..] == s[p..][|c|..] == Flatten(chars[1..]);
      DerivableIsWellFormed(s, p + |c|, chars[1..]);
    }
  }

  lemma WellFormedIffDerivable(s: CStr)
    ensures WellFormed(s) <==> Derivable(s)
  {
    assert s[0..] == s;
    if WellFormed(s) {
      var chars := CharsOf(s, 0);
    }
    if Derivable(s) {
      var chars: seq<seq<Byte>> :| (forall i :: 0 <= i < |chars| ==> Utf8Char(chars[i])) && Flatten(chars) == s;
      DerivableIsWellFormed(s, 0, chars);
    }
  }

  // ----- encoding

  /** RFC 3629, section 3, extended to every int as the code extends it. */
  function Encoded(chr: int): (c: seq<Byte>)
    ensures |c| <= 4
  {
    if chr <= 0x7F then [chr % 256]
    else if chr <= 0x7FF then [0xC0 + chr / 64, 0x80 + chr % 64]
    else if chr <= 0xFFFF then [0xE0 + chr / 4096, 0x80 + chr / 64 % 64, 0x80 + chr % 64]
    else if chr <= 0x10FFFF then
      [0xF0 + chr / 262144, 0x80 + chr / 4096 % 64, 0x80 + chr / 64 % 64, 0x80 + chr % 64]
    else []
  }

  /** `0x80 | ((chr >> shift) & 0x3F)`. */
  function TailByte(chr: nat, shift: nat): nat {
    Bits.Or(0x80, Bits.And(Bits.Shr(chr, shift), 0x3F))
  }

  lemma TailByteValue(chr: nat, shift: nat)
    ensures TailByte(chr, shift) == 0x80 + chr / Pow2(shift) % 64
  {
    PowersOfTwo();
    var x := Bits.Shr(chr, shift);
    Bits.AndMask(x, 6);
    Bits.OrIsSum(64, 6, 2, x % 64);
  }

  /** A lead byte: a prefix of ones above `k` payload bits. */
  lemma LeadByteValue(prefix: nat, k: nat, p: nat, x: nat)
    requires p == Pow2(k) && x < p
    ensures Bits.Or(p * prefix, Bits.And(x, p - 1)) == p * prefix + x
  {
    Bits.AndMask(x, k);
    assert x % p == x by {
      DivModUnique(x, p, 0, x);
    }
    Bits.OrIsSum(p, k, prefix, x);
  }

  /** str_utf8_encode. */
  method Encode(ptr: array<Byte>, chr: int) returns (n: nat)
    requires |Encoded(chr)| <= ptr.Length
    modifies ptr
    ensures n == |Encoded(chr)|
    ensures ptr[..n] == Encoded(chr) && ptr[n..] == old(ptr[n..])
  {
    hide TailByte, Bits.Or, Bits.And;
    PowersOfTwo();
    if chr <= 0x7F {
      ptr[0] := chr % 256;
      return 1;
    }
    TailByteValue(chr, 0);
    TailByteValue(chr, 6);
    TailByteValue(chr, 12);
    assert Pow2(0) == 1;
    if chr <= 0x7FF {
      LeadByteValue(6, 5, 32, Bits.Shr(chr, 6));
      ptr[0] := Bits.Or(0xC0, Bits.And(Bits.Shr(chr, 6), 0x1F));
      ptr[1] := TailByte(chr, 0);
      return 2;
    } else if chr <= 0xFFFF {
      LeadByteValue(14, 4, 16, Bits.Shr(chr, 12));
      ptr[0] := Bits.Or(0xE0, Bits.And(Bits.Shr(chr, 12), 0x0F));
      ptr[1] := TailByte(chr, 6);
      ptr[2] := TailByte(chr, 0);
      return 3;
    } else if chr <= 0x10FFFF {
      LeadByteValue(30, 3, 8, Bits.Shr(chr, 18));
      ptr[0] := Bits.Or(0xF0, Bits.And(Bits.Shr(chr, 18), 0x07));
      ptr[1] := TailByte(chr, 12);
      ptr[2] := TailByte(chr, 6);
      ptr[3] := TailByte(chr, 0);
      return 4;
    }
    return 0;
  }

  /** The C string in a buffer: what stands before the first zero, or all of it. */
  function Terminated(b: seq<Byte>): CStr {
    if b == [] || b[0] == 0 then [] else [b[0]] + Terminated(b[1..])
  }

  lemma {:induction false} TerminatedKeeps(s: CStr)
    ensures Terminated(s) == s
  {
    if s != [] {
      TerminatedKeeps(s[1..]);
    }
  }

  /**
    * Encoding a number in front of a string and then decoding gives back the number and the length exactly for the
    * scalar values, and for -1.
    */
  lemma EncodeDecodeIff(chr: int, rest: CStr)
    ensures Decoded(Terminated(Encoded(chr) + rest), 0) == (chr, |Encoded(chr)|) <==> ScalarValue(chr) || chr == -1
  {
    var c := Encoded(chr);
    if c == [] {
      assert c + rest == rest;
    } else if 0 in c {
      assert c == [0];
      assert Terminated(c + rest) == [];
    } else {
      TerminatedKeeps(c + rest);
      VisibleDecodes(chr, rest);
    }
  }

  lemma VisibleDecodes(chr: int, rest: CStr)
    requires 0 !in Encoded(chr) && Encoded(chr) != []
    ensures Decoded(Encoded(chr) + rest, 0) == (chr, |Encoded(chr)|) <==> ScalarValue(chr) || chr == -1
  {
    hide Value;
    var c := Encoded(chr);
    var s: CStr := c + rest;
    EncodedValue(chr);
    if Utf8Char(c) {
      CharFound(s, 0, c);
      assert s[0..|c|] == c;
    } else if chr <= 0x7F {
      assert s[0] == chr % 256;
    }
  }

  /** The base-64 digits of a number determine it and are determined by it. */
  lemma Digits(x: nat, d3: nat, d2: nat, d1: nat, d0: nat)
    requires d2 < 64 && d1 < 64 && d0 < 64
    ensures x == d3 * 262144 + d2 * 4096 + d1 * 64 + d0
            <==> d3 == x / 262144 && d2 == x / 4096 % 64 && d1 == x / 64 % 64 && d0 == x % 64
  {
    if x == d3 * 262144 + d2 * 4096 + d1 * 64 + d0 {
      DigitsOf(x, d3, d2, d1, d0);
    }
    SumOfDigits(x);
  }

  lemma DigitsOf(x: nat, d3: nat, d2: nat, d1: nat, d0: nat)
    requires d2 < 64 && d1 < 64 && d0 < 64 && x == d3 * 262144 + d2 * 4096 + d1 * 64 + d0
    ensures d3 == x / 262144 && d2 == x / 4096 % 64 && d1 == x / 64 % 64 && d0 == x % 64
  {
    DivModUnique(x, 64, d3 * 4096 + d2 * 64 + d1, d0);
    DivModUnique(x, 4096, d3 * 64 + d2, d1 * 64 + d0);
    DivModUnique(x, 262144, d3, d2 * 4096 + d1 * 64 + d0);
    DivModUnique(d3 * 4096 + d2 * 64 + d1, 64, d3 * 64 + d2, d1);
    DivModUnique(d3 * 64 + d2, 64, d3, d2);
  }

  lemma SumOfDigits(x: nat)
    ensures x == x / 262144 * 262144 + x / 4096 % 64 * 4096 + x / 64 % 64 * 64 + x % 64
  {
    DivDiv(x, 64, 64);
    DivDiv(x, 64, 4096);
    DivDiv(x / 64, 64, 64);
    var y, z := x / 64, x / 4096;
    assert x == 64 * y + x % 64 && y == 64 * z + y % 64 && z == 64 * (x / 262144) + z % 64;
  }

  lemma EncodedValue(chr: int)
    ensures Utf8Char(Encoded(chr)) <==> (ScalarValue(chr) || (chr < 0 && chr % 256 < 0x80))
    ensures ScalarValue(chr) ==> Value(Encoded(chr)) == chr
  {
    hide Utf8Char, Value, Encoded;
    if chr <= 0x7F {
      EncodedInOne(chr);
    } else if chr <= 0x7FF {
      EncodedInTwo(chr);
    } else if chr <= 0xFFFF {
      EncodedInThree(chr);
    } else {
      EncodedInFour(chr);
    }
  }

  lemma EncodedInOne(chr: int)
    requires chr <= 0x7F
    ensures Utf8Char(Encoded(chr)) <==> 0 <= chr || chr % 256 < 0x80
    ensures 0 <= chr ==> Value(Encoded(chr)) == chr
  {
  }

  lemma EncodedInTwo(chr: nat)
    requires 0x7F < chr <= 0x7FF
    ensures Utf8Char(Encoded(chr)) && Value(Encoded(chr)) == chr
  {
    assert chr == chr / 64 * 64 + chr % 64;
  }

  lemma EncodedInThree(chr: nat)
    requires 0x7FF < chr <= 0xFFFF
    ensures Utf8Char(Encoded(chr)) <==> ScalarValue(chr)
    ensures ScalarValue(chr) ==> Value(Encoded(chr)) == chr
  {
    Digits(chr, 0, chr / 4096 % 64, chr / 64 % 64, chr % 64);
    assert chr / 64 == chr / 4096 * 64 + chr / 64 % 64;
  }

  lemma EncodedInFour(chr: nat)
    requires 0xFFFF < chr
    ensures Utf8Char(Encoded(chr)) <==> chr <= 0x10FFFF
    ensures chr <= 0x10FFFF ==> Value(Encoded(chr)) == chr
  {
    Digits(chr, chr / 262144, chr / 4096 % 64, chr / 64 % 64, chr % 64);
  }

  /** Decoding then encoding gives back the bytes of every character. */
  lemma DecodeEncode(c: seq<Byte>)
    requires Utf8Char(c)
    ensures Encoded(Value(c)) == c
  {
    var v := Value(c);
    if |c| == 2 {
      Digits(v, 0, 0, c[0] - 0xC0, c[1] - 0x80);
    } else if |c| == 3 {
      Digits(v, 0, c[0] - 0xE0, c[1] - 0x80, c[2] - 0x80);
    } else if |c| == 4 {
      Digits(v, c[0] - 0xF0, c[1] - 0x80, c[2] - 0x80, c[3] - 0x80);
    }
  }

  // ----- whole strings

  /** The code points str_utf8_decode yields from `p` to the terminator. */
  function CodePoints(s: CStr, p: nat): (cs: seq<int>)
    requires p <= |s|
    ensures |cs| <= |s| - p
    ensures 0 !in cs
    decreases |s| - p
  {
    if p == |s| then [] else [Decoded(s, p).0] + CodePoints(s, Decoded(s, p).1)
  }

  function EncodedAll(cs: seq<int>): seq<Byte> {
    if cs == [] then [] else Encoded(cs[0]) + EncodedAll(cs[1..])
  }

  /** A well-formed string is the encoding of its code points, all of them scalar values. */
  lemma {:induction false} WellFormedRoundTrip(s: CStr, p: nat)
    requires p <= |s| && WellFormedFrom(s, p)
    ensures EncodedAll(CodePoints(s, p)) == s[p..]
    ensures forall i :: 0 <= i < |CodePoints(s, p)| ==> ScalarValue(CodePoints(s, p)[i])
    decreases |s| - p
  {
    hide Utf8Char, Value, Encoded, Decoded, CharLen, CodePoints, EncodedAll;
    if p < |s| {
      var n := CharLen(s, p);
      WellFormedRoundTrip(s, p + n);
      FirstCharBack(s, p);
    } else {
      NothingLeft(s);
    }
  }

  lemma NothingLeft(s: CStr)
    ensures CodePoints(s, |s|) == [] && EncodedAll([]) == [] == s[|s|..]
  {
  }

  /** The first code point of a string that starts with a character encodes to that character. */
  lemma FirstCharBack(s: CStr, p: nat)
    requires p < |s| && CharLen(s, p) > 0
    ensures var n := CharLen(s, p);
            && EncodedAll(CodePoints(s, p)) == s[p..p + n] + EncodedAll(CodePoints(s, p + n))
            && s[p..] == s[p..p + n] + s[p + n..]
            && exists c :: ScalarValue(c) && CodePoints(s, p) == [c] + CodePoints(s, p + n)
  {
    hide Utf8Char, Value, Encoded, ErrorEnd;
    var n := CharLen(s, p);
    DecodeEncode(s[p..p + n]);
    var c := Decoded(s, p).0;
    assert ScalarValue(c) && CodePoints(s, p) == [c] + CodePoints(s, p + n);
    assert CodePoints(s, p)[1..] == CodePoints(s, p + n);
  }
}
