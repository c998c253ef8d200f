/** Copying and truncating C strings without cutting a UTF-8 character in two. */
module Utf8Truncation {
  import opened Arith
  import opened Bytes
  import opened Utf8

  // ----- C strings in buffers

  /** The buffer `a` holds the C string `s`. */
  ghost predicate Holds(a: seq<Byte>, s: CStr) {
    |s| < |a| && a[..|s|] == s && a[|s|] == 0
  }

  method StrLength(a: array<Byte>, ghost s: CStr) returns (len: nat)
    requires Holds(a[..], s)
    ensures len == |s|
  {
    len := 0;
    assert forall i :: 0 <= i < |s| ==> a[i] == s[i];
    while a[len] != 0
      invariant len <= |s|
      invariant len < |s| ==> a[len] != 0
      decreases |s| - len
    {
      len := len + 1;
    }
  }

  // ----- stepping back to the start of a character

  /** str_utf8_isstart: not 10xxxxxx. */
  predicate IsStart(b: Byte) {
    b / 64 != 2
  }

  function Rewound(s: CStr, cursor: nat): (k: nat)
    requires cursor <= |s|
    ensures cursor > 0 ==> k < cursor
    ensures forall j :: k < j < cursor ==> !IsStart(s[j])
    ensures 0 < k < cursor ==> IsStart(s[k])
  {
    if cursor == 0 then 0 else if IsStart(s[cursor - 1]) then cursor - 1 else Rewound(s, cursor - 1)
  }

  method Rewind(s: CStr, cursor: nat) returns (k: nat)
    requires cursor <= |s|
    ensures k == Rewound(s, cursor)
  {
    k := cursor;
    while k != 0
      invariant k <= cursor && Rewound(s, k) == Rewound(s, cursor)
    {
      k := k - 1;
      if IsStart(s[k]) {
        break;
      }
    }
  }

  /** How much of a possibly cut string str_utf8_fix_truncation keeps. */
  function FixedLength(s: CStr): (n: nat)
    ensures n <= |s|
  {
    if s == [] then 0
    else
      var k := Rewound(s, |s|);
      if Decoded(s, k).0 == -1 then k else |s|
  }

  method FixTruncation(a: array<Byte>, ghost s: CStr) returns (len: nat)
    requires Holds(a[..], s)
    modifies a
    ensures len == FixedLength(s) && Holds(a[..], s[..len])
    ensures forall i :: 0 <= i < a.Length && i != len ==> a[i] == old(a[i])
  {
    hide Decoded;
    len := StrLength(a, s);
    if len > 0 {
      var str: CStr := a[..len];
      var last := Rewind(str, len);
      var codePoint, next := Decode(str, last);
      if codePoint == -1 {
        a[last] := 0;
        assert a[..last] == s[..last];
        return last;
      }
    }
    assert s[..len] == s;
  }

  /** How many bytes strncat appends for a size of `dstSize`: the bound is unsigned, so a size of 0 sets none. */
  function CopiedLength(src: CStr, dstSize: nat): (n: nat)
    ensures n <= |src|
  {
    if dstSize == 0 then |src| else Min(|src|, dstSize - 1)
  }

  /** str_copy: an empty string, strncat, then the repair. */
  method StrCopy(dst: array<Byte>, src: CStr, dstSize: nat) returns (len: nat)
    requires dstSize <= dst.Length && (dstSize == 0 ==> |src| < dst.Length)
    modifies dst
    ensures len == FixedLength(src[..CopiedLength(src, dstSize)]) && Holds(dst[..], src[..len])
    ensures WellFormed(src) && dstSize > 0 ==> LongestAligned(src, dstSize, len)
    ensures WellFormed(src) && dstSize == 0 ==> len == |src|
  {
    hide FixedLength, WellFormed, LongestAligned;
    var n := CopiedLength(src, dstSize);
    forall i | 0 <= i < n {
      dst[i] := src[i];
    }
    dst[n] := 0;
    ghost var s: CStr := src[..n];
    assert dst[..n] == s;
    len := FixTruncation(dst, s);
    assert s[..len] == src[..len];
    if WellFormed(src) {
      CutIsRepaired(src, n);
      if dstSize > 0 {
        LongestBelow(src, n, dstSize, len);
      } else {
        NothingAfterEnd(src, len);
      }
    }
  }

  lemma NothingAfterEnd(s: CStr, r: nat)
    requires r <= |s| && WellFormedFrom(s, r) && (r < |s| ==> CharLen(s, r) > |s| - r)
    ensures r == |s|
  {
    hide Utf8Char;
  }

  // ----- what the repair achieves

  /** `r` is the longest prefix of `src` that ends with a character and has fewer than `limit` bytes. */
  ghost predicate LongestAligned(src: CStr, limit: nat, r: nat) {
    && r <= |src| && r < limit && WellFormed(src[..r])
    && forall k :: r < k <= |src| && k < limit ==> !WellFormed(src[..k])
  }

  /** A character consists of a start byte and continuation bytes. */
  lemma CharBytes(s: CStr, p: nat)
    requires p < |s| && CharLen(s, p) > 0
    ensures IsStart(s[p])
    ensures forall j :: p < j < p + CharLen(s, p) ==> !IsStart(s[j])
  {
    var c := s[p..p + CharLen(s, p)];
    forall j | p < j < p + |c| ensures !IsStart(s[j]) {
      assert s[j] == c[j - p];
    }
    assert s[p] == c[0];
  }

  /** A prefix sees the characters that end in it, and no others. */
  lemma CharInPrefix(s: CStr, k: nat, p: nat)
    requires p < k <= |s|
    ensures CharLen(s[..k], p) > 0 ==> CharLen(s, p) == CharLen(s[..k], p)
    ensures CharLen(s, p) > 0 ==> CharLen(s[..k], p) == if p + CharLen(s, p) <= k then CharLen(s, p) else 0
  {
    hide Utf8Char;
    var n := Announced(s[p]);
    if p + n <= k {
      assert s[..k][p..p + n] == s[p..p + n];
    }
  }

  /** What follows a well-formed prefix of a well-formed string is well-formed. */
  lemma {:induction false} PrefixSplits(s: CStr, k: nat, p: nat)
    requires p <= k <= |s| && WellFormedFrom(s, p) && WellFormedFrom(s[..k], p)
    ensures WellFormedFrom(s, k)
    decreases k - p
  {
    hide CharLen;
    if p < k {
      CharInPrefix(s, k, p);
      PrefixSplits(s, k, p + CharLen(s, p));
    }
  }

  /** A well-formed prefix stays so when the next character joins it. */
  lemma {:induction false} PrefixExtends(s: CStr, p: nat, a: nat)
    requires a <= p < |s| && WellFormedFrom(s[..p], a) && CharLen(s, p) > 0
    ensures WellFormedFrom(s[..p + CharLen(s, p)], a)
    decreases p - a
  {
    hide CharLen;
    var n := p + CharLen(s, p);
    CharInPrefix(s, n, a);
    if a < p {
      CharInPrefix(s, p, a);
      PrefixExtends(s, p, a + CharLen(s, a));
    }
  }

  /** The character of a well-formed string that byte `n - 1` belongs to. */
  lemma {:induction false} CharAround(s: CStr, p: nat, n: nat) returns (b: nat)
    requires p < n <= |s| && WellFormedFrom(s, p) && WellFormed(s[..p])
    ensures b < n && WellFormed(s[..b]) && WellFormedFrom(s, b) && CharLen(s, b) > 0 && n <= b + CharLen(s, b)
    decreases n - p
  {
    hide CharLen;
    var q := p + CharLen(s, p);
    if n <= q {
      b := p;
    } else {
      PrefixExtends(s, p, 0);
      b := CharAround(s, q, n);
    }
  }

  /**
    * Cutting a well-formed string anywhere and repairing it leaves an aligned prefix that lost less than a character.
    */
  lemma CutIsRepaired(s: CStr, n: nat)
    requires n <= |s| && WellFormed(s)
    ensures var r := FixedLength(s[..n]);
            && r <= n && WellFormed(s[..r]) && WellFormedFrom(s, r)
            && (r < n ==> CharLen(s, r) > n - r)
  {
    hide CharLen, Utf8Char, Value, ErrorEnd, WellFormedFrom, Decoded, IsStart, Rewound;
    EmptyIsWellFormed(s);
    if n > 0 {
      var b := CharAround(s, 0, n);
      var m := CharLen(s, b);
      var t: CStr := s[..n];
      CharBytes(s, b);
      RewindFindsStart(t, n, b);
      CharInPrefix(s, n, b);
      DecodedInPrefix(t, b);
      if b + m == n {
        PrefixExtends(s, b, 0);
        AfterChar(s, b);
      }
    }
  }

  lemma EmptyIsWellFormed(s: CStr)
    ensures WellFormed(s[..0])
  {
  }

  lemma AfterChar(s: CStr, b: nat)
    requires b < |s| && WellFormedFrom(s, b)
    ensures CharLen(s, b) > 0 && WellFormedFrom(s, b + CharLen(s, b))
  {
    hide CharLen;
  }

  lemma DecodedInPrefix(t: CStr, b: nat)
    requires b < |t|
    ensures Decoded(t, b).0 == -1 <==> CharLen(t, b) == 0
  {
  }

  lemma {:induction false} RewindFindsStart(t: CStr, n: nat, b: nat)
    requires b < n <= |t| && IsStart(t[b]) && forall j :: b < j < n ==> !IsStart(t[j])
    ensures Rewound(t, n) == b
  {
    if b < n - 1 {
      RewindFindsStart(t, n - 1, b);
    }
  }

  lemma LongestBelow(s: CStr, n: nat, limit: nat, r: nat)
    requires WellFormed(s) && n == Min(|s|, limit - 1) && limit >= 1
    requires r <= n && WellFormed(s[..r]) && WellFormedFrom(s, r) && (r < n ==> CharLen(s, r) > n - r)
    ensures LongestAligned(s, limit, r)
  {
    hide CharLen;
    forall k | r < k <= |s| && k < limit ensures !WellFormed(s[..k]) {
      if WellFormed(s[..k]) {
        PrefixSplits(s, k, 0);
        CharBytes(s, r);
        StartsHere(s, k);
      }
    }
  }

  lemma StartsHere(s: CStr, k: nat)
    requires k <= |s| && WellFormedFrom(s, k)
    ensures k < |s| ==> IsStart(s[k])
  {
    if k < |s| {
      CharBytes(s, k);
    }
  }

  // ----- str_utf8_truncate

  /** `r` is the longest aligned prefix below `limit` bytes with at most `count` code points. */
  ghost predicate LongestCounted(src: CStr, limit: nat, count: nat, r: nat) {
    && r <= |src| && r < limit && WellFormed(src[..r]) && |CodePoints(src[..r], 0)| <= count
    && forall k :: r < k <= |src| && k < limit && WellFormed(src[..k]) ==> |CodePoints(src[..k], 0)| > count
  }

  /** A place in a well-formed string where one character ends and the next starts. */
  predicate Boundary(s: CStr, k: nat) {
    k <= |s| && WellFormed(s[..k]) && WellFormedFrom(s, k)
  }

  function Count(s: CStr, k: nat): nat
    requires k <= |s|
  {
    |CodePoints(s[..k], 0)|
  }

  lemma StartOfString(s: CStr)
    requires WellFormed(s)
    ensures Boundary(s, 0) && Count(s, 0) == 0
  {
  }

  lemma DecodedNext(s: CStr, p: nat)
    requires p < |s| && CharLen(s, p) > 0
    ensures Decoded(s, p).1 == p + CharLen(s, p)
  {
  }

  lemma {:induction false} CountExtends(s: CStr, p: nat, a: nat)
    requires a <= p < |s| && WellFormedFrom(s[..p], a) && CharLen(s, p) > 0
    ensures |CodePoints(s[..p + CharLen(s, p)], a)| == |CodePoints(s[..p], a)| + 1
    decreases p - a
  {
    hide CharLen, Decoded, CodePoints;
    var n := p + CharLen(s, p);
    CharInPrefix(s, n, a);
    if a < p {
      CharInPrefix(s, p, a);
      CountFirst(s[..n], a);
      CountFirst(s[..p], a);
      CountExtends(s, p, a + CharLen(s, a));
    } else {
      CountFirst(s[..n], a);
      CountNone(s[..n]);
      CountNone(s[..p]);
    }
  }

  /** A character counts as one code point in front of the rest. */
  lemma CountFirst(s: CStr, a: nat)
    requires a < |s| && CharLen(s, a) > 0
    ensures |CodePoints(s, a)| == 1 + |CodePoints(s, a + CharLen(s, a))|
  {
    hide CharLen, Decoded;
    DecodedNext(s, a);
  }

  lemma CountNone(s: CStr)
    ensures CodePoints(s, |s|) == []
  {
  }

  lemma NothingInside(s: CStr, p: nat, k: nat)
    requires WellFormed(s) && Boundary(s, p) && p < k < |s| && k < p + CharLen(s, p)
    ensures !WellFormed(s[..k])
  {
    hide CharLen;
    if WellFormed(s[..k]) {
      PrefixSplits(s, k, 0);
      CharBytes(s, p);
      StartsHere(s, k);
    }
  }

  /** Decoding at a boundary leads to the next one. */
  lemma NextBoundary(s: CStr, p: nat)
    requires WellFormed(s) && Boundary(s, p) && p < |s|
    ensures var q := Decoded(s, p).1;
            && p < q && Boundary(s, q) && Count(s, q) == Count(s, p) + 1
            && forall k :: p < k < q ==> !WellFormed(s[..k])
  {
    hide CharLen, Value;
    PrefixExtends(s, p, 0);
    CountExtends(s, p, 0);
    var q := p + CharLen(s, p);
    forall k | p < k < q ensures !WellFormed(s[..k]) {
      NothingInside(s, p, k);
    }
  }

  /** The number of code points grows from boundary to boundary. */
  lemma {:induction false} CountGrows(s: CStr, c: nat, k: nat)
    requires WellFormed(s) && Boundary(s, c) && Boundary(s, k) && c <= k
    ensures Count(s, c) <= Count(s, k)
    decreases k - c
  {
    hide Count, Decoded, WellFormedFrom;
    if c < k {
      NextBoundary(s, c);
      CountGrows(s, Decoded(s, c).1, k);
    }
  }

  /** From `p` on, the last place where a code point starts, below `limit` and after at most `count` more of them. */
  function LastStop(src: CStr, limit: nat, count: nat, p: nat): (r: nat)
    requires p <= |src|
    ensures p <= r <= |src|
    decreases count
  {
    if p == |src| || count == 0 || Decoded(src, p).1 >= limit then p
    else LastStop(src, limit, count - 1, Decoded(src, p).1)
  }

  /**
    * str_utf8_truncate, for any source: looks at one code point after the other and copies up to the last place that
    * qualified. A negative length never enters the loop, and then everything is copied.
    */
  method Truncate(dst: array<Byte>, dstSize: nat, src: CStr, truncationLen: int)
    requires 1 <= dstSize <= dst.Length && (truncationLen < 0 ==> |src| < dst.Length)
    modifies dst
    ensures truncationLen >= 0 ==>
      Holds(dst[..], src[..FixedLength(src[..LastStop(src, dstSize, truncationLen, 0)])])
    ensures truncationLen < 0 ==> Holds(dst[..], src[..FixedLength(src)])
    ensures WellFormed(src) && truncationLen >= 0 ==>
      exists r: nat :: r <= |src| && LongestCounted(src, dstSize, truncationLen, r) && Holds(dst[..], src[..r])
    ensures WellFormed(src) && truncationLen < 0 ==> Holds(dst[..], src)
  {
    hide WellFormed, Decoded, LongestCounted, LongestAligned, FixedLength, LastStop;
    var size, cursor, pos := -1, 0, 0;
    ghost var last := if truncationLen < 0 then 0 else LastStop(src, dstSize, truncationLen, 0);
    while pos <= truncationLen && cursor < dstSize && size != cursor
      invariant -1 <= size < cursor <= |src| && size < dstSize
      invariant 0 <= pos && (size == -1 ==> cursor == 0 && pos == 0)
      invariant 0 <= truncationLen - pos && cursor < dstSize ==>
        LastStop(src, dstSize, truncationLen - pos, cursor) == last
      invariant size >= 0 && (pos > truncationLen || cursor >= dstSize) ==> size == last
      invariant truncationLen < 0 ==> size == -1
      decreases |src| - cursor
    {
      size := cursor;
      var codePoint, next := Decode(src, cursor);
      LastStopNext(src, dstSize, truncationLen - pos, cursor);
      if codePoint == 0 {
        break;
      }
      cursor, pos := next, pos + 1;
    }
    var len := StrCopy(dst, src, size + 1);
    CopiedUpTo(src, size);
    if WellFormed(src) && truncationLen >= 0 {
      StartOfString(src);
      LastStopLongest(src, dstSize, truncationLen, 0, truncationLen);
      AlignedIsKept(src, dstSize, truncationLen, last, len);
    }
  }

  lemma LastStopNext(src: CStr, limit: nat, count: int, p: nat)
    requires p <= |src|
    ensures count >= 0 ==>
      var (c, q) := Decoded(src, p);
      if c == 0 || count == 0 || q >= limit then LastStop(src, limit, count, p) == p
      else q <= |src| && LastStop(src, limit, count, p) == LastStop(src, limit, count - 1, q)
  {
    hide Decoded;
  }

  lemma CopiedUpTo(src: CStr, size: int)
    requires -1 <= size <= |src|
    ensures src[..CopiedLength(src, size + 1)] == if size >= 0 then src[..size] else src
  {
  }

  /** For a well-formed source the last stop is the end of the longest prefix that qualifies. */
  lemma {:induction false} LastStopLongest(src: CStr, limit: nat, count: nat, p: nat, total: nat)
    requires WellFormed(src) && p <= |src| && Boundary(src, p) && p < limit && Count(src, p) + count == total
    ensures LongestCounted(src, limit, total, LastStop(src, limit, count, p))
    decreases count
  {
    hide WellFormed, WellFormedFrom, Decoded, LongestCounted, Count, Boundary;
    if p == |src| {
      NoneBeyond(src, limit, total, p);
    } else {
      NextBoundary(src, p);
      var q := Decoded(src, p).1;
      if count == 0 || q >= limit {
        LastQualifies(src, limit, total, p, q);
      } else {
        LastStopLongest(src, limit, count - 1, q, total);
      }
    }
  }

  predicate Qualifies(src: CStr, limit: nat, count: nat, k: nat) {
    Boundary(src, k) && k < limit && Count(src, k) <= count
  }

  lemma NoneBeyond(src: CStr, limit: nat, count: nat, r: nat)
    requires r == |src| && Qualifies(src, limit, count, r)
    ensures LongestCounted(src, limit, count, r)
  {
  }

  lemma LastQualifies(src: CStr, limit: nat, count: nat, r: nat, next: nat)
    requires WellFormed(src) && Qualifies(src, limit, count, r) && r < next && Boundary(src, next)
    requires forall k :: r < k < next ==> !WellFormed(src[..k])
    requires limit <= next || count < Count(src, next)
    ensures LongestCounted(src, limit, count, r)
  {
    hide CodePoints, CharLen;
    forall k | r < k <= |src| && k < limit && WellFormed(src[..k]) ensures Count(src, k) > count {
      PrefixSplits(src, k, 0);
      CountGrows(src, next, k);
    }
  }

  lemma AlignedIsKept(src: CStr, limit: nat, count: nat, size: nat, len: nat)
    requires LongestAligned(src, size + 1, len) && LongestCounted(src, limit, count, size)
    ensures len == size
  {
  }
}
