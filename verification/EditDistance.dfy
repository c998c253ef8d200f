/** Levenshtein distance with two rows in one caller-supplied buffer. */
module EditDistance {
  import opened Arith
  import opened Bytes
  import Utf8

  function Min3(a: int, b: int, c: int): int {
    Min(Min(a, b), c)
  }

  function Differs(x: int, y: int): nat {
    if x == y then 0 else 1
  }

  /** The distance by its recursive equation. */
  function Lev(a: seq<int>, b: seq<int>): (d: nat)
    ensures |a| - |b| <= d && |b| - |a| <= d
    decreases |a| + |b|
  {
    if a == [] then |b|
    else if b == [] then |a|
    else
      var a', b' := a[..|a| - 1], b[..|b| - 1];
      Min3(Lev(a', b) + 1, Lev(a, b') + 1, Lev(a', b') + Differs(a[|a| - 1], b[|b| - 1]))
  }

  lemma {:induction false} LevSymmetric(a: seq<int>, b: seq<int>)
    ensures Lev(a, b) == Lev(b, a)
    decreases |a| + |b|
  {
    if a != [] && b != [] {
      LevSymmetric(a[..|a| - 1], b);
      LevSymmetric(a, b[..|b| - 1]);
      LevSymmetric(a[..|a| - 1], b[..|b| - 1]);
    }
  }

  /** The equation at one cell of the table of prefix distances. */
  lemma LevCell(a: seq<int>, b: seq<int>, i: nat, j: nat)
    requires i <= |a| && j <= |b|
    ensures Lev(a[..i], b[..0]) == i && Lev(a[..0], b[..j]) == j
    ensures i > 0 && j > 0 ==>
      Lev(a[..i], b[..j])
      == Min3(Lev(a[..i - 1], b[..j]) + 1, Lev(a[..i], b[..j - 1]) + 1,
              Lev(a[..i - 1], b[..j - 1]) + Differs(a[i - 1], b[j - 1]))
  {
    if i > 0 && j > 0 {
      assert a[..i][..i - 1] == a[..i - 1] && b[..j][..j - 1] == b[..j - 1];
    }
  }

  // ----- the distance is the least number of edits

  datatype Edit = Insert(at: nat, x: int) | Delete(at: nat) | Replace(at: nat, x: int)

  predicate Applicable(a: seq<int>, e: Edit) {
    if e.Insert? then e.at <= |a| else e.at < |a|
  }

  function Edited(a: seq<int>, e: Edit): seq<int>
    requires Applicable(a, e)
  {
    match e
    case Insert(at, x) => a[..at] + [x] + a[at..]
    case Delete(at) => a[..at] + a[at + 1..]
    case Replace(at, x) => a[..at] + [x] + a[at + 1..]
  }

  /** The edits, applied one after the other, turn `a` into `b`. */
  predicate Transforms(a: seq<int>, es: seq<Edit>, b: seq<int>)
    decreases |es|
  {
    if es == [] then a == b
    else Applicable(a, es[0]) && Transforms(Edited(a, es[0]), es[1..], b)
  }

  lemma LevStep(a: seq<int>, b: seq<int>, x: int)
    ensures Lev(a, b + [x]) <= Lev(a, b) + 1
    ensures Lev(a + [x], b) <= Lev(a, b) + 1
  {
    assert (a + [x])[..|a|] == a && (b + [x])[..|b|] == b;
  }

  lemma {:induction false} LevInsertLast(u: seq<int>, x: int, w: seq<int>)
    ensures Lev(u, w) <= Lev(u + [x], w) + 1
    decreases |w|
  {
    if w != [] {
      var w', z := w[..|w| - 1], w[|w| - 1];
      assert w == w' + [z] && (u + [x])[..|u|] == u;
      LevInsertLast(u, x, w');
      LevStep(u, w', z);
    }
  }

  lemma {:induction false} LevReplaceLast(t: seq<int>, x: int, y: int, w: seq<int>)
    ensures Lev(t + [x], w) <= Lev(t + [y], w) + 1
    decreases |w|
  {
    if w != [] {
      var w', z := w[..|w| - 1], w[|w| - 1];
      assert w == w' + [z] && (t + [x])[..|t|] == t && (t + [y])[..|t|] == t;
      LevReplaceLast(t, x, y, w');
    }
  }

  /** If changing `u` to `v` moves no distance by more than one, neither does the change in front of a suffix. */
  lemma {:induction false} LevUnderSuffix(u: seq<int>, v: seq<int>, s: seq<int>, c: seq<int>)
    requires forall w :: Lev(u, w) <= Lev(v, w) + 1
    requires |u| <= |v| + 1
    ensures Lev(u + s, c) <= Lev(v + s, c) + 1
    decreases |s| + |c|
  {
    if s == [] {
      assert u + s == u && v + s == v;
    } else if c != [] {
      var s', c' := s[..|s| - 1], c[..|c| - 1];
      assert (u + s)[..|u + s| - 1] == u + s' && (v + s)[..|v + s| - 1] == v + s';
      LevUnderSuffix(u, v, s', c);
      LevUnderSuffix(u, v, s, c');
      LevUnderSuffix(u, v, s', c');
    }
  }

  /** One edit moves the distance to anything by at most one. */
  lemma OneEdit(a: seq<int>, e: Edit, c: seq<int>)
    requires Applicable(a, e)
    ensures Lev(a, c) <= Lev(Edited(a, e), c) + 1
  {
    hide Lev;
    var u := if e.Insert? then a[..e.at] else a[..e.at + 1];
    var v := if e.Delete? then a[..e.at] else a[..e.at] + [e.x];
    var s := a[|u|..];
    assert a == u + s && Edited(a, e) == v + s;
    forall w ensures Lev(u, w) <= Lev(v, w) + 1 {
      match e
      case Insert(at, x) => LevInsertLast(a[..at], x, w);
      case Delete(at) =>
        assert u == v + [a[at]];
        LevStep(v, w, a[at]);
      case Replace(at, x) =>
        assert u == a[..at] + [a[at]];
        LevReplaceLast(a[..at], a[at], x, w);
    }
    LevUnderSuffix(u, v, s, c);
  }

  /** No sequence of edits is shorter than the distance. */
  lemma {:induction false} LevIsLowerBound(a: seq<int>, es: seq<Edit>, b: seq<int>)
    requires Transforms(a, es, b)
    ensures Lev(a, b) <= |es|
    decreases |es|
  {
    if es == [] {
      LevSelf(a);
    } else {
      LevIsLowerBound(Edited(a, es[0]), es[1..], b);
      OneEdit(a, es[0], b);
    }
  }

  lemma {:induction false} LevSelf(a: seq<int>)
    ensures Lev(a, a) == 0
  {
    if a != [] {
      LevSelf(a[..|a| - 1]);
    }
  }

  lemma {:induction false} TransformsAppend(a: seq<int>, es: seq<Edit>, b: seq<int>, fs: seq<Edit>, c: seq<int>)
    requires Transforms(a, es, b) && Transforms(b, fs, c)
    ensures Transforms(a, es + fs, c)
    decreases |es|
  {
    hide Edited, Applicable;
    if es == [] {
      assert es + fs == fs;
    } else {
      assert (es + fs)[0] == es[0] && (es + fs)[1..] == es[1..] + fs;
      TransformsAppend(Edited(a, es[0]), es[1..], b, fs, c);
    }
  }

  lemma EditedUnderSuffix(a: seq<int>, e: Edit, y: int)
    requires Applicable(a, e)
    ensures Applicable(a + [y], e) && Edited(a + [y], e) == Edited(a, e) + [y]
  {
  }

  /** Edits of a prefix leave what follows it alone. */
  lemma {:induction false} TransformsUnderSuffix(a: seq<int>, es: seq<Edit>, b: seq<int>, y: int)
    requires Transforms(a, es, b)
    ensures Transforms(a + [y], es, b + [y])
    decreases |es|
  {
    hide Edited;
    if es != [] {
      EditedUnderSuffix(a, es[0], y);
      TransformsUnderSuffix(Edited(a, es[0]), es[1..], b, y);
    }
  }

  /** And some sequence of edits is exactly as long as the distance. */
  lemma {:induction false} LevIsReached(a: seq<int>, b: seq<int>) returns (es: seq<Edit>)
    ensures Transforms(a, es, b) && |es| == Lev(a, b)
    decreases |a| + |b|
  {
    if a == [] && b == [] {
      es := [];
    } else if a == [] || (b != [] && Lev(a, b) == Lev(a, b[..|b| - 1]) + 1) {
      es := InsertLast(a, b);
    } else {
      var a', x := a[..|a| - 1], a[|a| - 1];
      if b == [] || Lev(a, b) == Lev(a', b) + 1 {
        var fs := LevIsReached(a', b);
        es := [Delete(|a| - 1)] + fs;
        assert Edited(a, es[0]) == a' && es[1..] == fs;
      } else {
        es := KeepOrReplaceLast(a, b);
      }
    }
  }

  lemma {:induction false} InsertLast(a: seq<int>, b: seq<int>) returns (es: seq<Edit>)
    requires b != [] && Lev(a, b) == Lev(a, b[..|b| - 1]) + 1
    ensures Transforms(a, es, b) && |es| == Lev(a, b)
    decreases |a| + |b|, 0
  {
    hide Lev;
    var b' := b[..|b| - 1];
    var fs := LevIsReached(a, b');
    var last := [Insert(|b'|, b[|b| - 1])];
    assert Edited(b', last[0]) == b && last[1..] == [];
    TransformsAppend(a, fs, b', last, b);
    es := fs + last;
  }

  lemma {:induction false} KeepOrReplaceLast(a: seq<int>, b: seq<int>) returns (es: seq<Edit>)
    requires a != [] && b != []
    requires Lev(a, b) == Lev(a[..|a| - 1], b[..|b| - 1]) + Differs(a[|a| - 1], b[|b| - 1])
    ensures Transforms(a, es, b) && |es| == Lev(a, b)
    decreases |a| + |b|, 0
  {
    hide Lev, Transforms;
    var a', x := a[..|a| - 1], a[|a| - 1];
    var b', y := b[..|b| - 1], b[|b| - 1];
    es := LevIsReached(a', b');
    TransformsUnderSuffix(a', es, b', x);
    assert a' + [x] == a && b' + [y] == b;
    if x != y {
      var last := [Replace(|b'|, y)];
      ReplacesLast(b', x, y);
      TransformsAppend(a, es, b' + [x], last, b);
      es := es + last;
    }
  }

  lemma ReplacesLast(s: seq<int>, x: int, y: int)
    ensures Transforms(s + [x], [Replace(|s|, y)], s + [y])
  {
    var e := Replace(|s|, y);
    assert Edited(s + [x], e) == s + [y];
    assert [e][1..] == [];
  }

  // ----- the implementation

  /** The cells `B(0, j)` to `B(n, j)`: the row with the parity of `j`. */
  function Cell(base: nat, aLen: nat, i: nat, j: nat): nat {
    (if j % 2 == 0 then base else base + aLen + 1) + i
  }

  ghost predicate RowHolds(buf: seq<int>, base: nat, a: seq<int>, b: seq<int>, j: nat, n: nat)
    requires j <= |b| && n <= |a| + 1 && base + 2 * (|a| + 1) <= |buf|
  {
    forall i :: 0 <= i < n ==> buf[Cell(base, |a|, i, j)] == Lev(a[..i], b[..j])
  }

  /** Only the cells from `base` up to `end` may have changed. */
  ghost predicate Within(was: seq<int>, buf: seq<int>, base: nat, end: nat) {
    base <= end <= |was| == |buf| && buf[..base] == was[..base] && buf[end..] == was[end..]
  }

  /** str_utf32_dist_buffer; the buffer starts at `base` and has `bufLen` cells. */
  method DistBuffer(a: seq<int>, b: seq<int>, buf: array<int>, base: nat, bufLen: nat) returns (dist: nat)
    requires (|a| + 1) + (|b| + 1) <= bufLen && base + bufLen <= buf.Length
    modifies buf
    ensures dist == Lev(a, b)
    ensures Within(old(buf[..]), buf[..], base, base + (|a| + 1) + (|b| + 1))
  {
    if |a| > |b| {
      LevSymmetric(a, b);
      dist := FillRows(b, a, buf, base);
      Widened(old(buf[..]), buf[..], base, base + 2 * (|b| + 1), base + (|a| + 1) + (|b| + 1));
    } else {
      dist := FillRows(a, b, buf, base);
      Widened(old(buf[..]), buf[..], base, base + 2 * (|a| + 1), base + (|a| + 1) + (|b| + 1));
    }
  }

  lemma Widened(was: seq<int>, buf: seq<int>, base: nat, end: nat, wider: nat)
    requires Within(was, buf, base, end) && end <= wider <= |buf|
    ensures Within(was, buf, base, wider)
  {
    assert buf[wider..] == buf[end..][wider - end..] && was[wider..] == was[end..][wider - end..];
  }

  lemma WriteWithin(was: seq<int>, buf: seq<int>, base: nat, end: nat, k: nat, x: int)
    requires Within(was, buf, base, end) && base <= k < end
    ensures Within(was, buf[k := x], base, end)
  {
  }

  method FillRows(a: seq<int>, b: seq<int>, buf: array<int>, base: nat) returns (dist: nat)
    requires base + 2 * (|a| + 1) <= buf.Length
    modifies buf
    ensures dist == Lev(a, b)
    ensures Within(old(buf[..]), buf[..], base, base + 2 * (|a| + 1))
  {
    FirstRow(a, b, buf, base);
    for j := 1 to |b| + 1
      invariant Within(old(buf[..]), buf[..], base, base + 2 * (|a| + 1))
      invariant RowHolds(buf[..], base, a, b, j - 1, |a| + 1)
    {
      NextRow(a, b, buf, base, j);
    }
    assert a[..|a|] == a && b[..|b|] == b;
    assert buf[..][Cell(base, |a|, |a|, |b|)] == Lev(a, b);
    dist := buf[Cell(base, |a|, |a|, |b|)];
  }

  method FirstRow(a: seq<int>, b: seq<int>, buf: array<int>, base: nat)
    requires base + 2 * (|a| + 1) <= buf.Length
    modifies buf
    ensures RowHolds(buf[..], base, a, b, 0, |a| + 1)
    ensures Within(old(buf[..]), buf[..], base, base + 2 * (|a| + 1))
  {
    for i := 0 to |a| + 1
      invariant Within(old(buf[..]), buf[..], base, base + 2 * (|a| + 1))
      invariant RowHolds(buf[..], base, a, b, 0, i)
    {
      WriteWithin(old(buf[..]), buf[..], base, base + 2 * (|a| + 1), Cell(base, |a|, i, 0), i);
      ghost var before := buf[..];
      buf[Cell(base, |a|, i, 0)] := i;
      assert buf[..] == before[Cell(base, |a|, i, 0) := i];
      LevCell(a, b, i, 0);
    }
  }

  lemma Unchanged(buf: seq<int>, base: nat, end: nat)
    requires base <= end <= |buf|
    ensures Within(buf, buf, base, end)
  {
  }

  /** One more cell of a row, which leaves the row before as it is. */
  lemma CellWritten(buf: seq<int>, base: nat, a: seq<int>, b: seq<int>, i: nat, j: nat, x: int)
    requires base + 2 * (|a| + 1) <= |buf| && 1 <= j <= |b| && i <= |a|
    requires RowHolds(buf, base, a, b, j - 1, |a| + 1) && RowHolds(buf, base, a, b, j, i) && x == Lev(a[..i], b[..j])
    ensures var after := buf[Cell(base, |a|, i, j) := x];
            RowHolds(after, base, a, b, j - 1, |a| + 1) && RowHolds(after, base, a, b, j, i + 1)
  {
    hide Lev;
  }

  method NextRow(a: seq<int>, b: seq<int>, buf: array<int>, base: nat, j: nat)
    requires base + 2 * (|a| + 1) <= buf.Length && 1 <= j <= |b|
    requires RowHolds(buf[..], base, a, b, j - 1, |a| + 1)
    modifies buf
    ensures RowHolds(buf[..], base, a, b, j, |a| + 1)
    ensures Within(old(buf[..]), buf[..], base, base + 2 * (|a| + 1))
  {
    hide Lev, Within;
    ghost var start := buf[..];
    Unchanged(start, base, base + 2 * (|a| + 1));
    WriteWithin(start, start, base, base + 2 * (|a| + 1), Cell(base, |a|, 0, j), j);
    buf[Cell(base, |a|, 0, j)] := j;
    assert buf[..] == start[Cell(base, |a|, 0, j) := j];
    LevCell(a, b, 0, j);
    for i := 1 to |a| + 1
      invariant Within(start, buf[..], base, base + 2 * (|a| + 1))
      invariant RowHolds(buf[..], base, a, b, j - 1, |a| + 1)
      invariant RowHolds(buf[..], base, a, b, j, i)
    {
      var subst := Differs(a[i - 1], b[j - 1]);
      var least :=
        Min3(buf[Cell(base, |a|, i - 1, j)] + 1,
             buf[Cell(base, |a|, i, j - 1)] + 1,
             buf[Cell(base, |a|, i - 1, j - 1)] + subst);
      LevCell(a, b, i, j);
      CellWritten(buf[..], base, a, b, i, j, least);
      WriteWithin(start, buf[..], base, base + 2 * (|a| + 1), Cell(base, |a|, i, j), least);
      ghost var before := buf[..];
      buf[Cell(base, |a|, i, j)] := least;
      assert buf[..] == before[Cell(base, |a|, i, j) := least];
    }
  }

  /** str_to_utf32_unchecked: the code points, followed by the zero that ended the loop. */
  method ToUtf32(str: CStr, buf: array<int>, at: nat) returns (len: nat)
    requires at + |str| + 1 <= buf.Length
    modifies buf
    ensures len == |Utf8.CodePoints(str, 0)| && buf[at..at + len] == Utf8.CodePoints(str, 0)
    ensures buf[..at] == old(buf[..at])
  {
    hide Utf8.Decoded, Utf8.CodePoints;
    ghost var all := Utf8.CodePoints(str, 0);
    len := 0;
    var p := 0;
    while true
      invariant p <= |str| && len <= p
      invariant all == buf[at..at + len] + Utf8.CodePoints(str, p)
      invariant buf[..at] == old(buf[..at])
      decreases |str| - p
    {
      var codePoint;
      ghost var before := buf[at..at + len];
      NextCodePoint(str, p, before);
      codePoint, p := Utf8.Decode(str, p);
      buf[at + len] := codePoint;
      assert buf[at..at + len] == before;
      if codePoint == 0 {
        break;
      }
      len := len + 1;
      assert buf[at..at + len] == before + [codePoint];
    }
  }

  lemma NextCodePoint(str: CStr, p: nat, before: seq<int>)
    requires p <= |str|
    ensures var (c, q) := Utf8.Decoded(str, p);
            if c == 0 then before + Utf8.CodePoints(str, p) == before
            else q <= |str| && before + Utf8.CodePoints(str, p) == before + [c] + Utf8.CodePoints(str, q)
  {
    hide Utf8.Decoded;
  }

  /** str_utf8_dist_buffer: both strings are decoded into the buffer, and the rest of it is the table. */
  method DistBufferUtf8(a: CStr, b: CStr, buf: array<int>) returns (dist: nat)
    requires 2 * (|a| + 1 + |b| + 1) <= buf.Length
    modifies buf
    ensures dist == Lev(Utf8.CodePoints(a, 0), Utf8.CodePoints(b, 0))
  {
    var x, y := a, b;
    if |a| > |b| {
      x, y := b, a;
      LevSymmetric(Utf8.CodePoints(a, 0), Utf8.CodePoints(b, 0));
    }
    var xLen := ToUtf32(x, buf, 0);
    assert buf[0..xLen] == buf[..xLen];
    var yLen := ToUtf32(y, buf, xLen);
    dist := DistBuffer(buf[..xLen], buf[xLen..xLen + yLen], buf, xLen + yLen, buf.Length - yLen - xLen);
  }

  /** str_utf8_dist. */
  method DistUtf8(a: CStr, b: CStr) returns (dist: nat)
    ensures dist == Lev(Utf8.CodePoints(a, 0), Utf8.CodePoints(b, 0))
  {
    var buf := new int[2 * (|a| + 1 + |b| + 1)];
    dist := DistBufferUtf8(a, b, buf);
  }
}
