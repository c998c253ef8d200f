/** Printing IPv6 addresses, and printing and parsing IPv4 addresses. */
module NetAddr {
  import opened Arith
  import opened Bytes
  import opened Wrappers

  type Group = x: int | 0 <= x < 0x1_0000

  // ----- numerals

  function HexDigit(v: nat): char
    requires v < 16
  {
    if v < 10 then ('0' as int + v) as char else ('a' as int + (v - 10)) as char
  }

  /** The value of a hexadecimal digit of either case, -1 for any other character. */
  function HexDigitValue(c: char): int {
    if '0' <= c <= '9' then c as int - '0' as int
    else if 'a' <= c <= 'f' then c as int - 'a' as int + 10
    else if 'A' <= c <= 'F' then c as int - 'A' as int + 10
    else -1
  }

  /** `%x`. */
  function Hex(v: nat): (s: string)
    ensures |s| >= 1
    decreases v
  {
    if v < 16 then [HexDigit(v)] else Hex(v / 16) + [HexDigit(v % 16)]
  }

  function HexValue(s: string): int {
    if s == "" then 0 else 16 * HexValue(s[..|s| - 1]) + HexDigitValue(s[|s| - 1])
  }

  predicate AllHex(s: string) {
    forall i :: 0 <= i < |s| ==> HexDigitValue(s[i]) >= 0
  }

  predicate LowerHex(s: string) {
    forall i :: 0 <= i < |s| ==> '0' <= s[i] <= '9' || 'a' <= s[i] <= 'f'
  }

  lemma {:induction false} HexRoundTrip(v: nat)
    ensures AllHex(Hex(v)) && HexValue(Hex(v)) == v && ':' !in Hex(v)
    ensures v > 0 ==> Hex(v)[0] != '0'
    decreases v
  {
    if v < 16 {
      assert Hex(v)[..0] == "";
    } else {
      HexRoundTrip(v / 16);
      var s := Hex(v / 16);
      assert Hex(v)[..|s|] == s && Hex(v)[|s|] == HexDigit(v % 16);
    }
  }

  /** In lower case, and zero as one digit. */
  lemma {:induction false} HexIsLower(v: nat)
    ensures LowerHex(Hex(v)) && (v == 0 ==> Hex(v) == "0")
    decreases v
  {
    if v >= 16 {
      HexIsLower(v / 16);
    }
  }

  lemma HexLength(v: Group)
    ensures |Hex(v)| <= 4
  {
    if v >= 16 {
      assert |Hex(v / 16)| <= 3 by {
        if v / 16 >= 16 {
          assert |Hex(v / 16 / 16)| <= 2 by {
            if v / 256 >= 16 {
              assert v / 16 / 16 / 16 < 16;
            }
          }
        }
      }
    }
  }

  // ----- texts made of fields between colons

  function Join(parts: seq<string>): string {
    if parts == [] then ""
    else if |parts| == 1 then parts[0]
    else parts[0] + ":" + Join(parts[1..])
  }

  function Split(t: string): (fields: seq<string>)
    ensures |fields| >= 1
  {
    if t == "" then [""]
    else
      var rest := Split(t[1..]);
      if t[0] == ':' then [""] + rest else [[t[0]] + rest[0]] + rest[1..]
  }

  lemma {:induction false} JoinSnoc(parts: seq<string>, x: string)
    ensures Join(parts + [x]) == if parts == [] then x else Join(parts) + ":" + x
  {
    if |parts| == 1 {
      assert (parts + [x])[1..] == [x];
    } else if |parts| > 1 {
      JoinSnoc(parts[1..], x);
      assert (parts + [x])[1..] == parts[1..] + [x];
    }
  }

  lemma {:induction false} JoinAppend(a: seq<string>, b: seq<string>)
    requires a != [] && b != []
    ensures Join(a + b) == Join(a) + ":" + Join(b)
  {
    if |a| == 1 {
      assert (a + b)[1..] == b;
    } else {
      JoinAppend(a[1..], b);
      assert (a + b)[1..] == a[1..] + b;
    }
  }

  lemma {:induction false} SplitField(h: string, t: string)
    requires ':' !in h
    ensures Split(h) == [h] && Split(h + ":" + t) == [h] + Split(t)
  {
    if h == "" {
      assert h + ":" + t == ":" + t && (":" + t)[1..] == t;
    } else {
      SplitField(h[1..], t);
      assert (h + ":" + t)[1..] == h[1..] + ":" + t;
      assert [h[0]] + h[1..] == h;
    }
  }

  predicate NoColons(parts: seq<string>) {
    forall i :: 0 <= i < |parts| ==> ':' !in parts[i]
  }

  lemma {:induction false} SplitJoin(parts: seq<string>)
    requires parts != [] && NoColons(parts)
    ensures Split(Join(parts)) == parts
  {
    if |parts| == 1 {
      SplitField(parts[0], "");
      assert parts == [parts[0]];
    } else {
      SplitField(parts[0], Join(parts[1..]));
      SplitJoin(parts[1..]);
      assert parts == [parts[0]] + parts[1..];
    }
  }

  // ----- RFC 4291, section 2.2: text representation of addresses

  /** One to four hexadecimal digits for each group. */
  ghost predicate Fields(parts: seq<string>, groups: seq<int>) {
    && |parts| == |groups|
    && forall i :: 0 <= i < |parts| ==> 1 <= |parts[i]| <= 4 && AllHex(parts[i]) && HexValue(parts[i]) == groups[i]
  }

  /** Form 3: four decimal octets between dots stand for two groups. */
  ghost predicate Dotted(part: string, groups: seq<int>) {
    exists octets :: DottedOctets(part, groups, octets)
  }

  ghost predicate DottedOctets(part: string, groups: seq<int>, octets: seq<string>) {
    && |octets| == 4 && (forall i :: 0 <= i < 4 ==> Numeral(octets[i], 255)) && part == JoinDots(octets)
    && groups == [DecValue(octets[0]) * 256 + DecValue(octets[1]), DecValue(octets[2]) * 256 + DecValue(octets[3])]
  }

  /** Fields up to the end of an address, where the last one may be dotted. */
  ghost predicate LastFields(parts: seq<string>, groups: seq<int>) {
    || Fields(parts, groups)
    || DottedLast(parts, groups)
  }

  ghost predicate DottedLast(parts: seq<string>, groups: seq<int>) {
    var n, m := |parts| - 1, |groups| - 2;
    n >= 0 && m >= 0 && Fields(parts[..n], groups[..m]) && Dotted(parts[n], groups[m..])
  }

  /** Form 1: all fields. */
  ghost predicate ReadsFull(text: string, groups: seq<int>, parts: seq<string>) {
    |groups| == 8 && LastFields(parts, groups) && text == Join(parts)
  }

  /** Form 2: "::" stands for one or more groups of zeros; `k` groups follow it. */
  ghost predicate ReadsCompressed(text: string, groups: seq<int>, left: seq<string>, right: seq<string>, k: nat) {
    && |groups| == 8 && |left| + k < 8
    && Fields(left, groups[..|left|]) && LastFields(right, groups[8 - k..])
    && (forall i :: |left| <= i < 8 - k ==> groups[i] == 0)
    && text == Join(left) + "::" + Join(right)
  }

  ghost predicate Reads(text: string, groups: seq<int>) {
    || (exists parts :: ReadsFull(text, groups, parts))
    || (exists left, right, k :: ReadsCompressed(text, groups, left, right, k))
  }

  lemma FieldsNoColons(parts: seq<string>, groups: seq<int>)
    requires Fields(parts, groups)
    ensures NoColons(parts) && "" !in parts
  {
  }

  lemma FieldsUnique(parts: seq<string>, g: seq<int>, h: seq<int>)
    requires Fields(parts, g) && Fields(parts, h)
    ensures g == h
  {
  }

  lemma FieldsNoDots(parts: seq<string>, groups: seq<int>, i: nat)
    requires Fields(parts, groups) && i < |parts|
    ensures '.' !in parts[i]
  {
    assert AllHex(parts[i]);
  }

  lemma DottedText(part: string, groups: seq<int>)
    requires Dotted(part, groups)
    ensures '.' in part && ':' !in part && part != "" && |groups| == 2
  {
    hide DecValue;
    var octets :| DottedOctets(part, groups, octets);
    DotsOfFour(octets);
    assert part[|octets[0]|] == '.';
  }

  lemma DottedUnique(part: string, g: seq<int>, h: seq<int>)
    requires Dotted(part, g) && Dotted(part, h)
    ensures g == h
  {
    hide DecValue, JoinDots;
    var a :| DottedOctets(part, g, a);
    var b :| DottedOctets(part, h, b);
    JoinDotsUnique(a, "", b, "");
  }

  lemma LastFieldsText(parts: seq<string>, groups: seq<int>)
    requires LastFields(parts, groups)
    ensures NoColons(parts) && "" !in parts
  {
    hide Dotted, AllHex, HexValue;
    if DottedLast(parts, groups) {
      var n := |parts| - 1;
      FieldsNoColons(parts[..n], groups[..|groups| - 2]);
      DottedText(parts[n], groups[|groups| - 2..]);
      assert parts == parts[..n] + [parts[n]];
    } else {
      FieldsNoColons(parts, groups);
    }
  }

  lemma LastFieldsUnique(parts: seq<string>, g: seq<int>, h: seq<int>)
    requires LastFields(parts, g) && LastFields(parts, h)
    ensures g == h
  {
    hide Dotted, Fields;
    if Fields(parts, g) && Fields(parts, h) {
      FieldsUnique(parts, g, h);
    } else if DottedLast(parts, g) && DottedLast(parts, h) {
      DottedLastUnique(parts, g, h);
    } else if Fields(parts, g) {
      NotBoth(parts, g, h);
    } else {
      NotBoth(parts, h, g);
    }
  }

  lemma DottedLastUnique(parts: seq<string>, g: seq<int>, h: seq<int>)
    requires DottedLast(parts, g) && DottedLast(parts, h)
    ensures g == h
  {
    hide Dotted, Fields;
    var n := |parts| - 1;
    FieldsUnique(parts[..n], g[..|g| - 2], h[..|h| - 2]);
    DottedUnique(parts[n], g[|g| - 2..], h[|h| - 2..]);
    assert g == g[..|g| - 2] + g[|g| - 2..] && h == h[..|h| - 2] + h[|h| - 2..];
  }

  lemma NotBoth(parts: seq<string>, g: seq<int>, h: seq<int>)
    requires Fields(parts, g)
    ensures !DottedLast(parts, h)
  {
    hide Dotted, AllHex, HexValue;
    if DottedLast(parts, h) {
      DottedText(parts[|parts| - 1], h[|h| - 2..]);
      FieldsNoDots(parts, g, |parts| - 1);
    }
  }

  /** An empty side of "::" leaves an empty field. */
  function Side(parts: seq<string>): (f: seq<string>)
    ensures f != []
  {
    if parts == [] then [""] else parts
  }

  /** The fields between the colons of a compressed text. */
  function CompressedFields(left: seq<string>, right: seq<string>): seq<string> {
    Side(left) + [""] + Side(right)
  }

  lemma CompressedText(left: seq<string>, right: seq<string>)
    requires NoColons(left) && NoColons(right)
    ensures Split(Join(left) + "::" + Join(right)) == CompressedFields(left, right)
  {
    var l, r := Side(left), Side(right);
    assert Join(l) == Join(left) && Join(r) == Join(right);
    hide Join, Split;
    JoinSnoc(l, "");
    JoinAppend(l + [""], r);
    TwoColons(Join(l), Join(r));
    SplitJoin(l + [""] + r);
  }

  lemma TwoColons(a: string, b: string)
    ensures a + ":" + "" + ":" + b == a + "::" + b
  {
  }

  lemma SideInjective(p: seq<string>, q: seq<string>)
    requires "" !in p && "" !in q && Side(p) == Side(q)
    ensures p == q
  {
    assert p != [] ==> p[0] in p;
    assert q != [] ==> q[0] in q;
  }

  lemma CompressedSides(l1: seq<string>, r1: seq<string>, l2: seq<string>, r2: seq<string>)
    requires "" !in l1 && "" !in r1 && "" !in l2 && "" !in r2
    requires CompressedFields(l1, r1) == CompressedFields(l2, r2)
    ensures l1 == l2 && r1 == r2
  {
    var f1, f2 := CompressedFields(l1, r1), CompressedFields(l2, r2);
    var m1, m2 := |Side(l1)|, |Side(l2)|;
    assert f1[m1] == "" && f2[m2] == "";
    assert l1 != [] ==> f1[0] == l1[0] && l1[0] in l1;
    assert l2 != [] ==> f2[0] == l2[0] && l2[0] in l2;
    assert Side(l1) == f1[..m1] && Side(r1) == f1[m1 + 1..];
    assert Side(l2) == f2[..m2] && Side(r2) == f2[m2 + 1..];
    SideInjective(l1, l2);
    SideInjective(r1, r2);
  }

  /** A text denotes one address at most. */
  lemma ReadsUnique(text: string, g: seq<int>, h: seq<int>)
    requires Reads(text, g) && Reads(text, h)
    ensures g == h
  {
    hide ReadsFull, ReadsCompressed;
    if parts :| ReadsFull(text, g, parts) {
      FullUnique(text, g, h, parts);
    } else {
      var l, r, k :| ReadsCompressed(text, g, l, r, k);
      CompressedHasEmpty(text, g, l, r, k);
      if parts' :| ReadsFull(text, h, parts') {
        FullFields(text, h, parts');
      } else {
        var l', r', k' :| ReadsCompressed(text, h, l', r', k');
        CompressedUnique(text, g, l, r, k, h, l', r', k');
      }
    }
  }

  lemma FullUnique(text: string, g: seq<int>, h: seq<int>, parts: seq<string>)
    requires ReadsFull(text, g, parts) && Reads(text, h)
    ensures g == h
  {
    hide LastFields, Join, Split;
    FullFields(text, g, parts);
    if parts' :| ReadsFull(text, h, parts') {
      FullFields(text, h, parts');
      LastFieldsUnique(parts, g, h);
    } else {
      var l, r, k :| ReadsCompressed(text, h, l, r, k);
      CompressedHasEmpty(text, h, l, r, k);
    }
  }

  lemma CompressedUnique(text: string, g: seq<int>, l: seq<string>, r: seq<string>, k: nat,
                         h: seq<int>, l': seq<string>, r': seq<string>, k': nat)
    requires ReadsCompressed(text, g, l, r, k) && ReadsCompressed(text, h, l', r', k')
    ensures g == h
  {
    hide Split, Join, CompressedFields, Fields, LastFields;
    CompressedHasEmpty(text, g, l, r, k);
    CompressedHasEmpty(text, h, l', r', k');
    CompressedSides(l, r, l', r');
    FieldsUnique(l, g[..|l|], h[..|l|]);
    LastFieldsUnique(r, g[8 - k..], h[8 - k'..]);
    assert k == |g[8 - k..]| == |h[8 - k'..]| == k';
    assert g[|l|..8 - k] == h[|l|..8 - k];
    assert g == g[..|l|] + g[|l|..8 - k] + g[8 - k..];
    assert h == h[..|l|] + h[|l|..8 - k] + h[8 - k..];
  }

  lemma FullFields(text: string, g: seq<int>, parts: seq<string>)
    requires ReadsFull(text, g, parts)
    ensures Split(text) == parts && "" !in parts
  {
    hide LastFields;
    LastFieldsText(parts, g);
    if parts == [] {
      NoLastFields(g);
    }
    SplitJoin(parts);
  }

  lemma NoLastFields(g: seq<int>)
    requires LastFields([], g)
    ensures g == []
  {
  }

  lemma CompressedHasEmpty(text: string, g: seq<int>, l: seq<string>, r: seq<string>, k: nat)
    requires ReadsCompressed(text, g, l, r, k)
    ensures Split(text) == CompressedFields(l, r) && "" in Split(text) && "" !in l && "" !in r
  {
    hide LastFields;
    FieldsNoColons(l, g[..|l|]);
    LastFieldsText(r, g[8 - k..]);
    CompressedText(l, r);
    assert CompressedFields(l, r)[if l == [] then 0 else |l|] == "";
  }

  // ----- net_addr_str_v6

  type Ipv6 = s: seq<Group> | |s| == 8 witness [0, 0, 0, 0, 0, 0, 0, 0]

  predicate IsZeroRun(ip: seq<Group>, s: nat, l: nat) {
    s + l <= |ip| && forall k :: s <= k < s + l ==> ip[k] == 0
  }

  /** RFC 5952, section 4.2: the leftmost of the longest runs of at least two zero groups, if there is one. */
  ghost predicate ChosenRun(ip: Ipv6, start: int, len: nat) {
    if len == 0 then start == -1 && forall s: nat, l: nat :: IsZeroRun(ip, s, l) ==> l < 2
    else start >= 0 && len >= 2 && IsZeroRun(ip, start, len) && LongestSoFar(ip, 8, start, len)
  }

  /** No zero run that ends at `limit` or before is longer, and none as long starts earlier. */
  ghost predicate LongestSoFar(ip: Ipv6, limit: int, start: int, len: nat) {
    forall s: nat, l: nat :: IsZeroRun(ip, s, l) && l > 0 && s + l <= limit ==> l <= len && (l == len ==> start <= s)
  }

  /** The first loop of net_addr_str_v6. */
  method FindRun(ip: Ipv6) returns (start: int, len: nat)
    ensures ChosenRun(ip, start, len)
  {
    start, len := -1, 0;
    var seqStart, seqLen := -1, 0;
    for i := 0 to 9
      invariant seqStart == -1 ==> i == 0 || i == 9 || ip[i - 1] != 0
      invariant -1 <= seqStart
      invariant seqStart != -1 ==>
        i <= 8 && seqLen > 0 && seqStart + seqLen == i && IsZeroRun(ip, seqStart, seqLen) &&
        (seqStart == 0 || ip[seqStart - 1] != 0)
      invariant LongestSoFar(ip, if seqStart == -1 then i else seqStart, start, len)
      invariant len == 0 ==> start == -1
      invariant len > 0 ==>
        0 <= start && IsZeroRun(ip, start, len) && start + len <= (if seqStart == -1 then i else seqStart)
    {
      if seqStart != -1 {
        if i == 8 || ip[i] != 0 {
          RunCompleted(ip, seqStart, seqLen, i, start, len);
          if len < seqLen {
            len := seqLen;
            start := seqStart;
          }
          seqLen := 0;
          seqStart := -1;
        } else {
          seqLen := seqLen + 1;
        }
      } else if i != 8 && ip[i] == 0 {
        seqStart := i;
        seqLen := 1;
      }
    }
    if len <= 1 {
      len := 0;
      start := -1;
    }
  }

  lemma RunCompleted(ip: Ipv6, seqStart: nat, seqLen: nat, i: nat, start: int, len: nat)
    requires seqLen > 0 && seqStart + seqLen == i <= 8 && IsZeroRun(ip, seqStart, seqLen)
    requires seqStart == 0 || ip[seqStart - 1] != 0
    requires i == 8 || ip[i] != 0
    requires LongestSoFar(ip, seqStart, start, len)
    requires len > 0 ==> 0 <= start && IsZeroRun(ip, start, len) && start < seqStart
    ensures var (st, ln) := if len < seqLen then (seqStart as int, seqLen) else (start, len);
            LongestSoFar(ip, i + 1, st, ln)
  {
    var st, ln := if len < seqLen then seqStart else start, if len < seqLen then seqLen else len;
    forall s: nat, l: nat | IsZeroRun(ip, s, l) && l > 0 && s + l <= i + 1
      ensures l <= ln && (l == ln ==> st <= s)
    {
    }
  }

  function HexFields(groups: seq<Group>): (f: seq<string>)
    ensures |f| == |groups|
    ensures forall i :: 0 <= i < |groups| ==> f[i] == Hex(groups[i])
  {
    seq(|groups|, i requires 0 <= i < |groups| => Hex(groups[i]))
  }

  /** The address between the brackets. */
  function Inner(ip: Ipv6, start: int, len: nat): string
    requires len > 0 ==> 0 <= start && start + len <= 8
  {
    if len == 0 then Join(HexFields(ip))
    else Join(HexFields(ip[..start])) + "::" + Join(HexFields(ip[start + len..]))
  }

  /** What the first `i` turns of the printing loop have produced. */
  function Partial(ip: Ipv6, start: int, len: nat, i: nat): string
    requires i <= 8 && (len > 0 ==> 0 <= start && start + len <= 8)
  {
    if len == 0 || i <= start then Join(HexFields(ip[..i]))
    else if i <= start + len then Join(HexFields(ip[..start])) + "::"
    else Join(HexFields(ip[..start])) + "::" + Join(HexFields(ip[start + len..i]))
  }

  lemma HexFieldsSnoc(groups: seq<Group>, g: Group)
    ensures Join(HexFields(groups + [g])) == if groups == [] then Hex(g) else Join(HexFields(groups)) + ":" + Hex(g)
  {
    hide Hex;
    assert HexFields(groups + [g]) == HexFields(groups) + [Hex(g)];
    JoinSnoc(HexFields(groups), Hex(g));
  }

  /** The whole text: the address between brackets, with "::" for the chosen run, and the port. */
  function Whole(ip: Ipv6, port: int, start: int, len: nat): string
    requires len > 0 ==> 0 <= start && start + len <= 8
  {
    "[" + Inner(ip, start, len) + "]" + (if port >= 0 then ":" + Dec(port) else "")
  }

  /** `text` is what fits of the whole text in front of a terminator. */
  ghost predicate Shows(text: string, ip: Ipv6, port: int, size: nat, start: int, len: nat) {
    && ChosenRun(ip, start, len) && (len > 0 ==> 0 <= start && start + len <= 8)
    && size > 0 && text == Clipped(Whole(ip, port, start, len), size - 1)
  }

  function Clipped(t: string, n: nat): (c: string)
    ensures |c| <= n
  {
    if |t| <= n then t else t[..n]
  }

  lemma ClippedEmpty(n: nat)
    ensures Clipped("", n) == ""
  {
  }

  /** Writing behind a text that is already cut off leaves what writing first and cutting then leaves. */
  lemma ClippedAppend(a: string, b: string, n: nat)
    ensures Clipped(Clipped(a, n) + b, n) == Clipped(a + b, n)
  {
  }

  /** str_copy and str_format of ASCII text at the end of what a buffer of `size` bytes holds. */
  method Append(text: string, piece: string, size: nat, ghost whole: string) returns (t: string)
    requires size > 0 && text == Clipped(whole, size - 1)
    ensures t == Clipped(whole + piece, size - 1)
  {
    ClippedAppend(whole, piece, size - 1);
    var room := size - |text| - 1;
    t := text + if |piece| <= room then piece else piece[..room];
  }

  /** net_addr_str_v6. */
  method PrintV6(ip: Ipv6, port: int, size: nat) returns (text: string)
    requires size > 0
    ensures exists start, len :: Shows(text, ip, port, size, start, len)
  {
    hide Hex, Join, HexFields, ChosenRun, Partial, Clipped, Dec;
    var start, len := FindRun(ip);
    RunBounds(ip, start, len);
    PartialEmpty(ip, start, len);
    ClippedEmpty(size - 1);
    text := Append("", "[", size, "");
    assert "" + "[" == "[" + Partial(ip, start, len, 0);
    for i := 0 to 8
      invariant text == Clipped("[" + Partial(ip, start, len, i), size - 1)
    {
      PartialStep(ip, start, len, i);
      ghost var whole := "[" + Partial(ip, start, len, i);
      if start <= i < start + len {
        if i == start {
          text := Append(text, "::", size, whole);
        }
        assert whole + (if i == start then "::" else "") == "[" + Partial(ip, start, len, i + 1);
        assert whole + "" == whole;
      } else {
        var colon := if i == 0 || i == start + len then "" else ":";
        text := Append(text, colon + Hex(ip[i]), size, whole);
        assert whole + (colon + Hex(ip[i])) == "[" + Partial(ip, start, len, i + 1);
      }
    }
    PartialEnds(ip, start, len);
    ghost var inner := "[" + Inner(ip, start, len);
    text := Append(text, "]", size, inner);
    if port >= 0 {
      text := Append(text, ":" + Dec(port), size, inner + "]");
    }
    assert inner + "]" + "" == inner + "]";
    assert Shows(text, ip, port, size, start, len);
  }

  lemma RunBounds(ip: Ipv6, start: int, len: nat)
    requires ChosenRun(ip, start, len)
    ensures len > 0 ==> 0 <= start && start + len <= 8
    ensures len == 0 ==> start == -1
  {
  }

  /** One turn of the printing loop. */
  lemma PartialStep(ip: Ipv6, start: int, len: nat, i: nat)
    requires i < 8 && (len > 0 ==> 0 <= start && start + len <= 8) && (len == 0 ==> start == -1)
    ensures Partial(ip, start, len, i + 1) == Partial(ip, start, len, i) +
      (if start <= i < start + len then (if i == start then "::" else "")
       else (if i == 0 || i == start + len then "" else ":") + Hex(ip[i]))
  {
    hide Hex, Join, HexFields;
    if len == 0 || i < start {
      PartialBefore(ip, start, len, i);
      PartialEmpty(ip, start, len);
    } else if start + len <= i {
      PartialAfter(ip, start, len, i);
    }
  }

  lemma PartialBefore(ip: Ipv6, start: int, len: nat, i: nat)
    requires i < 8 && (len == 0 || i < start) && (len > 0 ==> 0 <= start && start + len <= 8)
    ensures Partial(ip, start, len, i + 1)
      == if i == 0 then Hex(ip[i]) else Partial(ip, start, len, i) + ":" + Hex(ip[i])
  {
    hide Hex, Join, HexFields;
    assert ip[..i + 1] == ip[..i] + [ip[i]];
    HexFieldsSnoc(ip[..i], ip[i]);
  }

  lemma PartialAfter(ip: Ipv6, start: int, len: nat, i: nat)
    requires 0 < len && 0 <= start && start + len <= i < 8
    ensures Partial(ip, start, len, i + 1)
      == Partial(ip, start, len, i) + (if i == start + len then "" else ":") + Hex(ip[i])
  {
    hide Hex, Join, HexFields;
    assert ip[start + len..i + 1] == ip[start + len..i] + [ip[i]];
    HexFieldsSnoc(ip[start + len..i], ip[i]);
  }

  lemma PartialEmpty(ip: Ipv6, start: int, len: nat)
    requires len > 0 ==> 0 <= start && start + len <= 8
    ensures Partial(ip, start, len, 0) == ""
  {
    hide Hex;
    assert HexFields(ip[..0]) == [];
  }

  lemma PartialEnds(ip: Ipv6, start: int, len: nat)
    requires len > 0 ==> 0 <= start && start + len <= 8
    ensures Partial(ip, start, len, 8) == Inner(ip, start, len)
  {
    hide Hex;
    assert ip[..8] == ip;
    if len > 0 {
      assert ip[start + len..8] == ip[start + len..];
      if start + len == 8 {
        assert HexFields(ip[8..]) == [];
      }
    }
  }

  /** The printed text, read by RFC 4291, is the address. */
  lemma PrintedReadsBack(ip: Ipv6, start: int, len: nat)
    requires ChosenRun(ip, start, len) && (len > 0 ==> 0 <= start && start + len <= 8)
    ensures Reads(Inner(ip, start, len), ip)
  {
    hide Hex, Join;
    if len == 0 {
      HexFieldsRead(ip);
      assert ReadsFull(Inner(ip, start, len), ip, HexFields(ip));
    } else {
      var left, right := HexFields(ip[..start]), HexFields(ip[start + len..]);
      HexFieldsRead(ip[..start]);
      HexFieldsRead(ip[start + len..]);
      assert ReadsCompressed(Inner(ip, start, len), ip, left, right, 8 - start - len);
    }
  }

  lemma HexFieldsRead(groups: seq<Group>)
    ensures Fields(HexFields(groups), groups)
  {
    hide Hex, HexValue;
    forall i | 0 <= i < |groups|
      ensures var f := HexFields(groups)[i]; 1 <= |f| <= 4 && AllHex(f) && HexValue(f) == groups[i]
    {
      HexRoundTrip(groups[i]);
      HexLength(groups[i]);
    }
  }

  /** RFC 5952, sections 4.1 and 4.3: no leading zeros and no capitals. */
  ghost predicate CanonicalFields(parts: seq<string>, groups: seq<int>) {
    && Fields(parts, groups)
    && forall i :: 0 <= i < |parts| ==> LowerHex(parts[i]) && (|parts[i]| > 1 ==> parts[i][0] != '0')
  }

  lemma HexFieldsCanonical(groups: seq<Group>)
    ensures CanonicalFields(HexFields(groups), groups)
  {
    hide Hex, HexValue, LowerHex;
    HexFieldsRead(groups);
    forall i | 0 <= i < |groups|
      ensures var f := HexFields(groups)[i]; LowerHex(f) && (|f| > 1 ==> f[0] != '0')
    {
      HexRoundTrip(groups[i]);
      HexIsLower(groups[i]);
    }
  }

  /** Every group outside the chosen run is printed in the canonical way, and the run as two colons. */
  lemma PrintedCanonical(ip: Ipv6, start: int, len: nat)
    requires len > 0 ==> 0 <= start && start + len <= 8
    ensures len == 0 ==> exists parts :: CanonicalFields(parts, ip) && Inner(ip, start, len) == Join(parts)
    ensures len > 0 ==> exists left, right ::
      && CanonicalFields(left, ip[..start]) && CanonicalFields(right, ip[start + len..])
      && Inner(ip, start, len) == Join(left) + "::" + Join(right)
  {
    hide Hex, Join, CanonicalFields;
    if len == 0 {
      HexFieldsCanonical(ip);
      assert Inner(ip, start, len) == Join(HexFields(ip));
    } else {
      var left, right := HexFields(ip[..start]), HexFields(ip[start + len..]);
      HexFieldsCanonical(ip[..start]);
      HexFieldsCanonical(ip[start + len..]);
      assert Inner(ip, start, len) == Join(left) + "::" + Join(right);
    }
  }

  /** So different addresses never print alike. */
  lemma PrintedInjective(ip: Ipv6, s1: int, l1: nat, other: Ipv6, s2: int, l2: nat)
    requires ChosenRun(ip, s1, l1) && (l1 > 0 ==> 0 <= s1 && s1 + l1 <= 8)
    requires ChosenRun(other, s2, l2) && (l2 > 0 ==> 0 <= s2 && s2 + l2 <= 8)
    requires Inner(ip, s1, l1) == Inner(other, s2, l2)
    ensures ip == other
  {
    hide Inner, Reads;
    PrintedReadsBack(ip, s1, l1);
    PrintedReadsBack(other, s2, l2);
    ReadsUnique(Inner(ip, s1, l1), ip, other);
  }

  // ----- decimal numerals

  function DecDigit(v: nat): char
    requires v < 10
  {
    ('0' as int + v) as char
  }

  /** `%d` of a number that is not negative. */
  function Dec(v: nat): (s: string)
    ensures |s| >= 1
    decreases v
  {
    if v < 10 then [DecDigit(v)] else Dec(v / 10) + [DecDigit(v % 10)]
  }

  predicate IsDigit(c: char) {
    '0' <= c <= '9'
  }

  predicate AllDigits(s: string) {
    forall i :: 0 <= i < |s| ==> IsDigit(s[i])
  }

  function DecValue(s: string): int {
    if s == "" then 0 else 10 * DecValue(s[..|s| - 1]) + (s[|s| - 1] as int - '0' as int)
  }

  lemma {:induction false} DecRoundTrip(v: nat)
    ensures AllDigits(Dec(v)) && DecValue(Dec(v)) == v && (v > 0 ==> Dec(v)[0] != '0')
    decreases v
  {
    if v < 10 {
      assert Dec(v)[..0] == "";
    } else {
      DecRoundTrip(v / 10);
      var s := Dec(v / 10);
      assert Dec(v)[..|s|] == s && Dec(v)[|s|] == DecDigit(v % 10);
    }
  }

  /** Brackets around the address, and behind them the port in decimal if there is one. */
  lemma WholeForm(ip: Ipv6, port: int, start: int, len: nat)
    requires len > 0 ==> 0 <= start && start + len <= 8
    ensures var t, n := Whole(ip, port, start, len), |Inner(ip, start, len)|;
            && |t| >= n + 2 && t[0] == '[' && t[1..n + 1] == Inner(ip, start, len) && t[n + 1] == ']'
            && if port < 0 then |t| == n + 2
               else
                 && |t| > n + 3 && t[n + 2] == ':' && AllDigits(t[n + 3..]) && DecValue(t[n + 3..]) == port
                 && (port > 0 ==> t[n + 3] != '0')
  {
    hide Inner, Dec, DecValue, AllDigits;
    if port >= 0 {
      DecRoundTrip(port);
      var t, n := Whole(ip, port, start, len), |Inner(ip, start, len)|;
      assert t[n + 3..] == Dec(port);
    }
  }

  // ----- lengths

  lemma {:induction false} JoinLength(parts: seq<string>)
    requires forall i :: 0 <= i < |parts| ==> |parts[i]| <= 4
    ensures |Join(parts)| <= if parts == [] then 0 else 5 * |parts| - 1
  {
    if |parts| > 1 {
      JoinLength(parts[1..]);
    }
  }

  lemma DecLength(v: nat)
    requires v < 100000
    ensures |Dec(v)| <= 5
  {
    DecShorter(v);
    DecShorter(v / 10);
    DecShorter(v / 100);
    DecShorter(v / 1000);
  }

  lemma DecShorter(v: nat)
    ensures |Dec(v)| == if v < 10 then 1 else |Dec(v / 10)| + 1
  {
  }

  /** The size of a buffer for any printed address, terminator included. */
  const NETADDR_MAXSTRSIZE: nat := 1 + (8 * 4 + 7) + 1 + 1 + 5 + 1

  /** A buffer of that size shows the whole text. */
  lemma PrintedFits(ip: Ipv6, start: int, len: nat, port: int, size: nat)
    requires ChosenRun(ip, start, len) && (len > 0 ==> 0 <= start && start + len <= 8)
    requires port < 0x1_0000 && NETADDR_MAXSTRSIZE <= size
    ensures Clipped(Whole(ip, port, start, len), size - 1) == Whole(ip, port, start, len)
  {
    hide Hex, Join, Dec;
    if port >= 0 {
      DecLength(port);
    }
    if len == 0 {
      FieldsLength(ip);
    } else {
      FieldsLength(ip[..start]);
      FieldsLength(ip[start + len..]);
    }
  }

  lemma FieldsLength(groups: seq<Group>)
    ensures |Join(HexFields(groups))| <= if groups == [] then 0 else 5 * |groups| - 1
  {
    hide Hex, Join;
    forall i | 0 <= i < |groups| ensures |HexFields(groups)[i]| <= 4 {
      HexLength(groups[i]);
    }
    JoinLength(HexFields(groups));
  }

  // ----- IPv4

  datatype Ipv4 = Ipv4(ip: seq<int>, port: int)

  function JoinDots(parts: seq<string>): string
    requires parts != []
  {
    if |parts| == 1 then parts[0] else parts[0] + "." + JoinDots(parts[1..])
  }

  function PortText(port: Option<string>): string {
    if port.None? then "" else ":" + port.value
  }

  predicate DigitRun(t: string) {
    t != "" && AllDigits(t)
  }

  /** A decimal numeral of a number up to `max`; leading zeros are accepted. */
  predicate Numeral(t: string, max: int) {
    DigitRun(t) && DecValue(t) <= max
  }

  /** Four runs of digits between dots, and perhaps one more behind a colon. */
  predicate Shaped(s: string, parts: seq<string>, port: Option<string>) {
    && |parts| == 4 && (forall i :: 0 <= i < 4 ==> DigitRun(parts[i]))
    && (port.Some? ==> DigitRun(port.value))
    && s == JoinDots(parts) + PortText(port)
  }

  /** What a text of that shape denotes: four octets, and the port or 0. */
  predicate Denotes(s: string, parts: seq<string>, port: Option<string>, a: Ipv4) {
    && Shaped(s, parts, port) && |a.ip| == 4
    && (forall i :: 0 <= i < 4 ==> Numeral(parts[i], 255) && DecValue(parts[i]) == a.ip[i])
    && (if port.Some? then Numeral(port.value, 65535) && DecValue(port.value) == a.port else a.port == 0)
  }

  ghost predicate Meant(s: string, a: Ipv4) {
    exists parts, port :: Denotes(s, parts, port, a)
  }

  // ----- the same under 32-bit arithmetic

  const INT_MAX: int := 0x7fff_ffff

  /** A number reduced to a 32-bit int. */
  function Int32(x: int): (r: int)
    ensures -INT_MAX - 1 <= r <= INT_MAX
  {
    (x + INT_MAX + 1) % UINT_RANGE - INT_MAX - 1
  }

  lemma Int32Keeps(x: int)
    ensures Int32(x) == x <==> -INT_MAX - 1 <= x <= INT_MAX
  {
  }

  /** Reducing after every digit is reducing once at the end. */
  lemma Int32Step(a: int, d: int)
    ensures Int32(Int32(a) * 10 + d) == Int32(a * 10 + d)
  {
    var k := (a + INT_MAX + 1) / UINT_RANGE;
    assert Int32(a) == a - UINT_RANGE * k;
    var x := a * 10 + d + INT_MAX + 1;
    var q, r := x / UINT_RANGE, x % UINT_RANGE;
    DivModUnique(Int32(a) * 10 + d + INT_MAX + 1, UINT_RANGE, q - 10 * k, r);
  }

  /** The value the parser computes for a run of digits. */
  function Value32(t: string): int {
    Int32(DecValue(t))
  }

  /** A run the parser takes for a number up to `max`. */
  predicate Taken(t: string, max: int) {
    DigitRun(t) && 0 <= Value32(t) <= max
  }

  /** A run whose value is above `max` but comes back into range modulo 2^32. */
  predicate Wraps(t: string, max: int) {
    max < DecValue(t) && DecValue(t) % UINT_RANGE <= max
  }

  lemma {:induction false} DecNonnegative(t: string)
    requires AllDigits(t)
    ensures 0 <= DecValue(t)
  {
    if t != "" {
      assert IsDigit(t[|t| - 1]);
      DecNonnegative(t[..|t| - 1]);
    }
  }

  /** The parser takes numerals, with their value, and runs that wrap, with another one; it takes nothing else. */
  lemma TakenIff(t: string, max: nat)
    requires DigitRun(t) && max <= INT_MAX
    ensures Taken(t, max) <==> Numeral(t, max) || Wraps(t, max)
    ensures Numeral(t, max) ==> Value32(t) == DecValue(t)
  {
    hide DecValue, AllDigits, Int32;
    DecNonnegative(t);
    InRangeIff(DecValue(t), max);
    Int32Keeps(DecValue(t));
  }

  lemma InRangeIff(v: nat, max: nat)
    requires max <= INT_MAX
    ensures 0 <= Int32(v) <= max <==> v % UINT_RANGE <= max
    ensures v <= max ==> v % UINT_RANGE <= max
  {
    var k := v / UINT_RANGE;
    var r := v % UINT_RANGE;
    if r <= INT_MAX {
      DivModUnique(v + INT_MAX + 1, UINT_RANGE, k, r + INT_MAX + 1);
    } else {
      DivModUnique(v + INT_MAX + 1, UINT_RANGE, k + 1, r - INT_MAX - 1);
    }
  }

  /** What the parser makes of a text of that shape. */
  predicate Denotes32(s: string, parts: seq<string>, port: Option<string>, a: Ipv4) {
    && Shaped(s, parts, port) && |a.ip| == 4
    && (forall i :: 0 <= i < 4 ==> Taken(parts[i], 255) && Value32(parts[i]) == a.ip[i])
    && (if port.Some? then Taken(port.value, 65535) && Value32(port.value) == a.port else a.port == 0)
  }

  /** Every run is taken, and one of them only because it wraps. */
  predicate MisreadAs(s: string, parts: seq<string>, port: Option<string>) {
    && Shaped(s, parts, port)
    && (forall i :: 0 <= i < 4 ==> Taken(parts[i], 255))
    && (port.Some? ==> Taken(port.value, 65535))
    && ((exists i :: 0 <= i < 4 && Wraps(parts[i], 255)) || (port.Some? && Wraps(port.value, 65535)))
  }

  ghost predicate Misread(s: string) {
    exists parts, port :: MisreadAs(s, parts, port)
  }

  /** The character a pointer into a C string reads; the terminator follows the last one. */
  function CharAt(s: string, p: nat): char
    requires p <= |s|
  {
    if p < |s| then s[p] else '\0'
  }

  function DigitsEnd(s: string, p: nat): (e: nat)
    requires p <= |s|
    ensures p <= e <= |s| && AllDigits(s[p..e]) && !IsDigit(CharAt(s, e))
    decreases |s| - p
  {
    if IsDigit(CharAt(s, p)) then
      var e := DigitsEnd(s, p + 1);
      assert s[p..e] == [s[p]] + s[p + 1..e];
      e
    else p
  }

  /** A number at `p`, with the place behind it. */
  function Uint(s: string, p: nat, max: int): (r: Option<(int, nat)>)
    requires p <= |s|
    ensures r.Some? ==> p < r.value.1 <= |s|
  {
    var e := DigitsEnd(s, p);
    var v := Value32(s[p..e]);
    if e == p || v < 0 || v > max then None else Some((v, e))
  }

  function Octets(s: string, p: nat, n: nat): (r: Option<(seq<int>, nat)>)
    requires p <= |s| && n > 0
    ensures r.Some? ==> |r.value.0| == n && p <= r.value.1 <= |s|
    decreases n
  {
    var first := Uint(s, p, 255);
    if first.None? then None
    else if n == 1 then Some(([first.value.0], first.value.1))
    else if CharAt(s, first.value.1) != '.' then None
    else
      var rest := Octets(s, first.value.1 + 1, n - 1);
      if rest.None? then None else Some(([first.value.0] + rest.value.0, rest.value.1))
  }

  function ParsedV4(s: string): Option<Ipv4> {
    var octets := Octets(s, 0, 4);
    if octets.None? then None
    else
      var (ip, q) := octets.value;
      if CharAt(s, q) == ':' then
        var port := Uint(s, q + 1, 65535);
        if port.None? || port.value.1 != |s| then None else Some(Ipv4(ip, port.value.0))
      else if q == |s| then Some(Ipv4(ip, 0))
      else None
  }

  lemma {:induction false} DigitsEndIs(s: string, p: nat, t: string)
    requires p + |t| <= |s| && s[p..p + |t|] == t && AllDigits(t) && !IsDigit(CharAt(s, p + |t|))
    ensures DigitsEnd(s, p) == p + |t|
    decreases |t|
  {
    if t != "" {
      assert s[p] == t[0];
      assert s[p + 1..p + 1 + |t[1..]|] == t[1..];
      DigitsEndIs(s, p + 1, t[1..]);
    }
  }

  lemma {:induction false} OctetsComplete(s: string, p: nat, parts: seq<string>, rest: string)
    requires parts != [] && forall i :: 0 <= i < |parts| ==> Taken(parts[i], 255)
    requires p <= |s| && s[p..] == JoinDots(parts) + rest && (rest == "" || !IsDigit(rest[0]))
    ensures var r := Octets(s, p, |parts|);
            && r.Some? && r.value.1 == |s| - |rest|
            && forall i :: 0 <= i < |parts| ==> r.value.0[i] == Value32(parts[i])
    decreases |parts|
  {
    hide Value32, Uint, Taken, Octets;
    var t, n := parts[0], |parts|;
    OctetsUnfold(s, p, n);
    if n == 1 {
      TakeNumber(s, p, t, 255, rest);
    } else {
      var tail := JoinDots(parts[1..]) + rest;
      assert s[p..] == t + ("." + tail);
      TakeNumber(s, p, t, 255, "." + tail);
      var q := p + |t|;
      assert CharAt(s, q) == s[q..][0] == '.' && s[q + 1..] == s[q..][1..] == tail;
      OctetsComplete(s, q + 1, parts[1..], rest);
    }
  }

  /** At `p` stands `t`, and then `after`, which does not start with a digit. */
  predicate Stands(s: string, p: nat, t: string, after: string) {
    p <= |s| && s[p..] == t + after && (after == "" || !IsDigit(after[0]))
  }

  lemma TakeNumber(s: string, p: nat, t: string, max: int, after: string)
    requires Stands(s, p, t, after) && Taken(t, max)
    ensures p + |t| <= |s| && Uint(s, p, max) == Some((Value32(t), p + |t|)) && s[p + |t|..] == after
  {
    hide *;
    TakenMeans(t, max);
    TakeDigits(s, p, t, after);
    UintOfDigits(s, p, p + |t|, t, max);
  }

  lemma TakenMeans(t: string, max: int)
    requires Taken(t, max)
    ensures t != "" && AllDigits(t) && 0 <= Value32(t) <= max
  {
    hide Value32, AllDigits;
  }

  lemma UintOfDigits(s: string, p: nat, e: nat, t: string, max: int)
    requires p < e <= |s| && DigitsEnd(s, p) == e && s[p..e] == t && 0 <= Value32(t) <= max
    ensures Uint(s, p, max) == Some((Value32(t), e))
  {
    hide Value32, DigitsEnd;
  }

  lemma TakeDigits(s: string, p: nat, t: string, after: string)
    requires Stands(s, p, t, after) && AllDigits(t)
    ensures p + |t| <= |s| && DigitsEnd(s, p) == p + |t| && s[p..p + |t|] == t && s[p + |t|..] == after
  {
    assert s[p..][..|t|] == t && s[p..][|t|..] == after;
    assert s[p..p + |t|] == t && s[p + |t|..] == after;
    assert after != "" ==> s[p + |t|] == after[0];
    DigitsEndIs(s, p, t);
  }

  lemma {:induction false} OctetsSound(s: string, p: nat, n: nat) returns (parts: seq<string>)
    requires p <= |s| && n > 0 && Octets(s, p, n).Some?
    ensures var (ip, q) := Octets(s, p, n).value;
            && |parts| == n && s[p..q] == JoinDots(parts)
            && forall i :: 0 <= i < n ==> Taken(parts[i], 255) && Value32(parts[i]) == ip[i]
    decreases n
  {
    hide Value32;
    var e := Uint(s, p, 255).value.1;
    if n == 1 {
      parts := [s[p..e]];
    } else {
      var rest := OctetsSound(s, e + 1, n - 1);
      parts := [s[p..e]] + rest;
      var q := Octets(s, p, n).value.1;
      assert parts[1..] == rest;
      assert s[p..q] == s[p..e] + "." + s[e + 1..q];
    }
  }

  /** The parser accepts exactly the texts all of whose runs it takes, with the values it computes for them. */
  lemma ParsedIff(s: string, a: Ipv4)
    ensures ParsedV4(s) == Some(a) <==> exists parts, port :: Denotes32(s, parts, port, a)
  {
    hide ParsedV4, Denotes32;
    if ParsedV4(s) == Some(a) {
      var parts, port := ParsedSound(s, a);
    }
    if parts, port :| Denotes32(s, parts, port, a) {
      ParsedComplete(s, parts, port, a);
    }
  }

  lemma ParsedSound(s: string, a: Ipv4) returns (parts: seq<string>, port: Option<string>)
    requires ParsedV4(s) == Some(a)
    ensures Denotes32(s, parts, port, a)
  {
    hide Value32, JoinDots, Octets, AllDigits;
    parts := OctetsSound(s, 0, 4);
    var q := Octets(s, 0, 4).value.1;
    if CharAt(s, q) == ':' {
      port := Some(s[q + 1..]);
      assert s[q + 1..|s|] == s[q + 1..];
      assert s == s[0..q] + (":" + s[q + 1..]);
    } else {
      port := None;
      assert s == s[0..q] + "";
    }
  }

  lemma ParsedComplete(s: string, parts: seq<string>, port: Option<string>, a: Ipv4)
    requires Denotes32(s, parts, port, a)
    ensures ParsedV4(s) == Some(a)
  {
    hide Denotes32, ParsedV4, Octets, PortText;
    var q := OctetsOf(s, parts, port, a);
    PortOf(s, q, parts, port, a);
  }

  /** The octets, and where the text of the port starts. */
  lemma OctetsOf(s: string, parts: seq<string>, port: Option<string>, a: Ipv4) returns (q: nat)
    requires Denotes32(s, parts, port, a)
    ensures q <= |s| && s[q..] == PortText(port) && Octets(s, 0, 4) == Some((a.ip, q))
  {
    hide Value32, JoinDots, Octets, Taken, DigitRun;
    assert s[0..] == s;
    OctetsComplete(s, 0, parts, PortText(port));
    q := |JoinDots(parts)|;
    assert Octets(s, 0, 4).value.0 == a.ip;
  }

  lemma PortOf(s: string, q: nat, parts: seq<string>, port: Option<string>, a: Ipv4)
    requires Denotes32(s, parts, port, a)
    requires q <= |s| && s[q..] == PortText(port) && Octets(s, 0, 4) == Some((a.ip, q))
    ensures ParsedV4(s) == Some(a)
  {
    hide Denotes32, Octets, Uint, Value32;
    PortMeant(s, parts, port, a);
    if port.Some? {
      assert s[q] == s[q..][0] == ':' && s[q + 1..] == s[q..][1..] == port.value;
      TakeNumber(s, q + 1, port.value, 65535, "");
    }
  }

  lemma PortMeant(s: string, parts: seq<string>, port: Option<string>, a: Ipv4)
    requires Denotes32(s, parts, port, a)
    ensures if port.Some? then Taken(port.value, 65535) && Value32(port.value) == a.port else a.port == 0
  {
    hide Taken, Shaped;
  }

  // ----- where 32 bits matter

  /** Two digit runs at the start of one text, each followed by something else, are the same. */
  lemma RunUnique(t: string, rest: string, u: string, more: string)
    requires AllDigits(t) && AllDigits(u) && t + rest == u + more
    requires (rest == "" || !IsDigit(rest[0])) && (more == "" || !IsDigit(more[0]))
    ensures t == u && rest == more
  {
    var s := t + rest;
    assert |t| < |s| ==> s[|t|] == rest[0];
    assert |u| < |s| ==> s[|u|] == more[0];
    assert forall i :: 0 <= i < |t| ==> s[i] == t[i];
    assert forall i :: 0 <= i < |u| ==> s[i] == u[i];
    assert |t| == |u|;
    assert (t + rest)[..|t|] == t && (u + more)[..|u|] == u;
    assert (t + rest)[|t|..] == rest && (u + more)[|u|..] == more;
  }

  lemma {:induction false} JoinDotsUnique(a: seq<string>, rest: string, b: seq<string>, more: string)
    requires |a| == |b| > 0 && forall i :: 0 <= i < |a| ==> DigitRun(a[i]) && DigitRun(b[i])
    requires JoinDots(a) + rest == JoinDots(b) + more
    requires (rest == "" || !IsDigit(rest[0])) && (more == "" || !IsDigit(more[0]))
    ensures a == b && rest == more
    decreases |a|
  {
    hide AllDigits;
    if |a| == 1 {
      RunUnique(a[0], rest, b[0], more);
    } else {
      var x, y := "." + (JoinDots(a[1..]) + rest), "." + (JoinDots(b[1..]) + more);
      assert JoinDots(a) + rest == a[0] + x && JoinDots(b) + more == b[0] + y;
      RunUnique(a[0], x, b[0], y);
      assert x[1..] == JoinDots(a[1..]) + rest && y[1..] == JoinDots(b[1..]) + more;
      JoinDotsUnique(a[1..], rest, b[1..], more);
      assert a == [a[0]] + a[1..] && b == [b[0]] + b[1..];
    }
  }

  lemma ShapeUnique(s: string, parts: seq<string>, port: Option<string>, parts': seq<string>, port': Option<string>)
    requires Shaped(s, parts, port) && Shaped(s, parts', port')
    ensures parts == parts' && port == port'
  {
    hide JoinDots, DigitRun;
    JoinDotsUnique(parts, PortText(port), parts', PortText(port'));
    assert port.Some? ==> PortText(port)[1..] == port.value;
    assert port'.Some? ==> PortText(port')[1..] == port'.value;
  }

  /** The parser agrees with what texts mean exactly on those that it does not misread. */
  lemma AgreesIff(s: string)
    ensures (forall a :: ParsedV4(s) == Some(a) <==> Meant(s, a)) <==> !Misread(s)
  {
    hide ParsedV4, Meant, MisreadAs;
    if parts, port :| MisreadAs(s, parts, port) {
      var a := MisreadValue(s, parts, port);
      assert ParsedV4(s) == Some(a) && !Meant(s, a);
    } else {
      forall a ensures ParsedV4(s) == Some(a) <==> Meant(s, a) {
        ReadRight(s, a);
      }
    }
  }

  /** A misread text is accepted, with an address that it does not mean: it means none. */
  lemma MisreadValue(s: string, parts: seq<string>, port: Option<string>) returns (a: Ipv4)
    requires MisreadAs(s, parts, port)
    ensures ParsedV4(s) == Some(a) && forall b :: !Meant(s, b)
  {
    hide Taken, ParsedV4, JoinDots, DigitRun, Value32, Wraps, Numeral;
    a := Ipv4([Value32(parts[0]), Value32(parts[1]), Value32(parts[2]), Value32(parts[3])],
              if port.Some? then Value32(port.value) else 0);
    ParsedComplete(s, parts, port, a);
    forall b ensures !Meant(s, b) {
      if parts', port' :| Denotes(s, parts', port', b) {
        ShapeUnique(s, parts, port, parts', port');
        WrapsMeans(parts, port);
      }
    }
  }

  lemma WrapsMeans(parts: seq<string>, port: Option<string>)
    ensures forall i :: 0 <= i < |parts| && Wraps(parts[i], 255) ==> !Numeral(parts[i], 255)
    ensures port.Some? && Wraps(port.value, 65535) ==> !Numeral(port.value, 65535)
  {
    hide DecValue;
  }

  lemma ReadRight(s: string, a: Ipv4)
    requires !Misread(s)
    ensures ParsedV4(s) == Some(a) <==> Meant(s, a)
  {
    hide ParsedV4, Denotes, Denotes32, MisreadAs;
    if ParsedV4(s) == Some(a) {
      var parts, port := ParsedSound(s, a);
      assert !MisreadAs(s, parts, port);
      DenotesIff(s, parts, port, a);
    }
    if parts, port :| Denotes(s, parts, port, a) {
      DenotesIff(s, parts, port, a);
      ParsedComplete(s, parts, port, a);
    }
  }

  /** Without a run that wraps the two readings are the same. */
  lemma DenotesIff(s: string, parts: seq<string>, port: Option<string>, a: Ipv4)
    ensures Denotes(s, parts, port, a) <==> Denotes32(s, parts, port, a) && !MisreadAs(s, parts, port)
  {
    hide Value32, DecValue, Taken, Numeral, Wraps, JoinDots, DigitRun;
    if Shaped(s, parts, port) {
      forall i | 0 <= i < 4
        ensures Taken(parts[i], 255) <==> Numeral(parts[i], 255) || Wraps(parts[i], 255)
        ensures Numeral(parts[i], 255) ==> Value32(parts[i]) == DecValue(parts[i])
      {
        TakenIff(parts[i], 255);
      }
      if port.Some? {
        TakenIff(port.value, 65535);
      }
      WrapsMeans(parts, port);
    }
  }

  /** A text that is misread: its first run is 2^32 + 1. */
  lemma OverlongAccepted()
    ensures var s := "4294967297.0.0.1"; ParsedV4(s) == Some(Ipv4([1, 0, 0, 1], 0)) && forall a :: !Meant(s, a)
  {
    var s, parts := "4294967297.0.0.1", ["4294967297", "0", "0", "1"];
    hide DecValue, Value32, ParsedV4, JoinDots, Meant, MisreadAs, Shaped;
    OverlongMisread(s, parts);
    OverlongValues();
    var a := MisreadValue(s, parts, None);
    ParsedComplete(s, parts, None, Ipv4([1, 0, 0, 1], 0));
  }

  lemma OverlongMisread(s: string, parts: seq<string>)
    requires s == "4294967297.0.0.1" && parts == ["4294967297", "0", "0", "1"]
    ensures MisreadAs(s, parts, None) && forall i :: 0 <= i < 4 ==> Taken(parts[i], 255)
    ensures Shaped(s, parts, None)
  {
    hide JoinDots, DecValue, Value32;
    OverlongValues();
    DotsOfFour(parts);
    assert s == JoinDots(parts) + "";
    assert Wraps(parts[0], 255);
  }

  lemma OverlongValues()
    ensures DecValue("4294967297") == 0x1_0000_0001 && Value32("4294967297") == 1
    ensures Value32("0") == 0 && Value32("1") == 1
  {
    hide DecValue;
    var t := "4294967297";
    NoDigits();
    OneMoreDigit(t[..0], t[0]);
    OneMoreDigit(t[..1], t[1]);
    OneMoreDigit(t[..2], t[2]);
    OneMoreDigit(t[..3], t[3]);
    OneMoreDigit(t[..4], t[4]);
    OneMoreDigit(t[..5], t[5]);
    OneMoreDigit(t[..6], t[6]);
    OneMoreDigit(t[..7], t[7]);
    OneMoreDigit(t[..8], t[8]);
    OneMoreDigit(t[..9], t[9]);
    assert forall k :: 0 <= k < 10 ==> t[..k] + [t[k]] == t[..k + 1];
    assert t[..10] == t;
    OneMoreDigit("", '0');
    OneMoreDigit("", '1');
    assert "" + ['0'] == "0" && "" + ['1'] == "1";
  }

  lemma NoDigits()
    ensures DecValue("") == 0
  {
  }

  lemma OneMoreDigit(t: string, c: char)
    ensures DecValue(t + [c]) == 10 * DecValue(t) + (c as int - '0' as int)
  {
    assert (t + [c])[..|t|] == t;
  }

  /** net_addr_str of an IPv4 address. */
  function PrintedV4(a: Ipv4, addPort: bool): string
    requires |a.ip| == 4 && (forall i :: 0 <= i < 4 ==> 0 <= a.ip[i] < 256) && 0 <= a.port
  {
    Dec(a.ip[0]) + "." + Dec(a.ip[1]) + "." + Dec(a.ip[2]) + "." + Dec(a.ip[3]) +
    (if addPort then ":" + Dec(a.port) else "")
  }

  /** Parsing undoes printing; without the port it comes back as 0. */
  lemma PrintedParses(a: Ipv4, addPort: bool)
    requires |a.ip| == 4 && (forall i :: 0 <= i < 4 ==> 0 <= a.ip[i] < 256) && 0 <= a.port < 0x1_0000
    ensures ParsedV4(PrintedV4(a, addPort)) == Some(if addPort then a else Ipv4(a.ip, 0))
  {
    hide DecValue, Dec, ParsedV4, Value32;
    var parts := [Dec(a.ip[0]), Dec(a.ip[1]), Dec(a.ip[2]), Dec(a.ip[3])];
    forall i | 0 <= i < 4 ensures Taken(parts[i], 255) && Value32(parts[i]) == a.ip[i] {
      DecRoundTrip(a.ip[i]);
      TakenIff(parts[i], 255);
    }
    DecRoundTrip(a.port);
    TakenIff(Dec(a.port), 65535);
    var port := if addPort then Some(Dec(a.port)) else None;
    DotsOfFour(parts);
    ParsedComplete(PrintedV4(a, addPort), parts, port, if addPort then a else Ipv4(a.ip, 0));
  }

  lemma DotsOfFour(parts: seq<string>)
    requires |parts| == 4
    ensures JoinDots(parts) == parts[0] + "." + parts[1] + "." + parts[2] + "." + parts[3]
  {
    assert parts[1..][1..] == parts[2..] && parts[2..][1..] == parts[3..];
    assert JoinDots(parts[2..]) == parts[2] + "." + parts[3];
    assert JoinDots(parts[1..]) == parts[1] + "." + JoinDots(parts[2..]);
  }

  // ----- the parsers

  /** parse_int: the digits from `p` on; `exact` tells whether every step stayed within the range of an int. */
  method ParseInt(s: string, p: nat) returns (ok: bool, value: int, q: nat, ghost exact: bool)
    requires p <= |s|
    ensures q == DigitsEnd(s, p) && (ok <==> q > p)
    ensures ok ==> value == Int32(DecValue(s[p..q])) && (exact <==> DecValue(s[p..q]) <= INT_MAX)
  {
    hide DecValue, Int32;
    value, q, exact := 0, p, true;
    if !IsDigit(CharAt(s, p)) {
      return false, value, q, exact;
    }
    value := s[p] as int - '0' as int;
    NoDigits();
    OneMoreDigit("", s[p]);
    assert "" + [s[p]] == s[p..p + 1];
    Int32Keeps(value);
    q := q + 1;
    while IsDigit(CharAt(s, q))
      invariant p < q <= |s| && DigitsEnd(s, q) == DigitsEnd(s, p)
      invariant value == Int32(DecValue(s[p..q]))
      invariant exact <==> DecValue(s[p..q]) <= INT_MAX
      invariant 0 <= DecValue(s[p..q])
      decreases |s| - q
    {
      var d := s[q] as int - '0' as int;
      OneMoreDigit(s[p..q], s[q]);
      assert s[p..q] + [s[q]] == s[p..q + 1];
      Int32Step(DecValue(s[p..q]), d);
      Int32Keeps(DecValue(s[p..q]));
      exact := exact && value * 10 + d <= INT_MAX;
      value := Int32(value * 10 + d);
      q := q + 1;
    }
    ok := true;
  }

  /** parse_uint8 and parse_uint16. */
  method ParseUint(s: string, p: nat, max: int) returns (r: Option<(int, nat)>)
    requires p <= |s|
    ensures r == Uint(s, p, max)
  {
    hide DecValue, Int32;
    var ok, value, q, exact := ParseInt(s, p);
    if !ok || value < 0 || value > max {
      return None;
    }
    r := Some((value, q));
  }

  /** A parse of the remaining octets behind those already read. */
  function Continued(done: seq<int>, rest: Option<(seq<int>, nat)>): Option<(seq<int>, nat)> {
    if rest.None? then None else Some((done + rest.value.0, rest.value.1))
  }

  /** One octet and the dot behind it. */
  lemma OctetAndDot(s: string, done: seq<int>, p: nat, n: nat)
    requires p <= |s| && n > 1
    ensures var first := Uint(s, p, 255);
            if first.None? || CharAt(s, first.value.1) != '.' then Continued(done, Octets(s, p, n)) == None
            else Continued(done, Octets(s, p, n)) ==
                 Continued(done + [first.value.0], Octets(s, first.value.1 + 1, n - 1))
  {
    hide Uint;
    var first := Uint(s, p, 255);
    if first.Some? && CharAt(s, first.value.1) == '.' {
      var rest := Octets(s, first.value.1 + 1, n - 1);
      assert rest.Some? ==> done + ([first.value.0] + rest.value.0) == done + [first.value.0] + rest.value.0;
    }
  }

  /** The four octets and the dots between them. */
  method ReadOctets(s: string) returns (r: Option<(seq<int>, nat)>)
    ensures r == Octets(s, 0, 4)
  {
    hide Uint, Octets;
    ghost var all := Octets(s, 0, 4);
    assert all == Continued([], all) by {
      assert all.Some? ==> [] + all.value.0 == all.value.0;
    }
    OctetAndDot(s, [], 0, 4);
    var o0 := ParseUint(s, 0, 255);
    if o0.None? || CharAt(s, o0.value.1) != '.' {
      return None;
    }
    assert [] + [o0.value.0] == [o0.value.0];
    OctetAndDot(s, [o0.value.0], o0.value.1 + 1, 3);
    var o1 := ParseUint(s, o0.value.1 + 1, 255);
    if o1.None? || CharAt(s, o1.value.1) != '.' {
      return None;
    }
    assert [o0.value.0] + [o1.value.0] == [o0.value.0, o1.value.0];
    OctetAndDot(s, [o0.value.0, o1.value.0], o1.value.1 + 1, 2);
    var o2 := ParseUint(s, o1.value.1 + 1, 255);
    if o2.None? || CharAt(s, o2.value.1) != '.' {
      return None;
    }
    assert [o0.value.0, o1.value.0] + [o2.value.0] == [o0.value.0, o1.value.0, o2.value.0];
    OctetsUnfold(s, o2.value.1 + 1, 1);
    var o3 := ParseUint(s, o2.value.1 + 1, 255);
    if o3.None? {
      return None;
    }
    r := Some(([o0.value.0, o1.value.0, o2.value.0, o3.value.0], o3.value.1));
    assert [o0.value.0, o1.value.0, o2.value.0] + [o3.value.0] == r.value.0;
  }

  /** net_addr_from_str for a text that does not start with a bracket; None stands for -1. */
  method FromStr(s: string) returns (r: Option<Ipv4>)
    requires '\0' !in s && (s == "" || s[0] != '[')
    ensures r == ParsedV4(s)
  {
    hide Uint, Octets;
    var octets := ReadOctets(s);
    if octets.None? {
      return None;
    }
    var p, port := octets.value.1, 0;
    if CharAt(s, p) == ':' {
      var number := ParseUint(s, p + 1, 65535);
      if number.None? {
        return None;
      }
      port, p := number.value.0, number.value.1;
    }
    if p != |s| {
      return None;
    }
    r := Some(Ipv4(octets.value.0, port));
  }

  lemma OctetsUnfold(s: string, p: nat, n: nat)
    requires p <= |s| && n > 0
    ensures var first := Uint(s, p, 255);
            if first.None? then Octets(s, p, n) == None
            else if n == 1 then Octets(s, p, n) == Some(([first.value.0], first.value.1))
            else if CharAt(s, first.value.1) != '.' then Octets(s, p, n) == None
            else
              var rest := Octets(s, first.value.1 + 1, n - 1);
              Octets(s, p, n) == if rest.None? then None else Some(([first.value.0] + rest.value.0, rest.value.1))
  {
  }
}
