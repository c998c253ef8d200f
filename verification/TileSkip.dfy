/** The row skip index of a tile layer. */
module TileSkip {
  import opened Arith
  import opened Bytes

  datatype Tile = Tile(index: Byte, flags: Byte, skip: Byte, reserved: Byte)

  /**
    * A step to the next tile: only empty tiles are passed over, the row is not left, and the step is as long as a
    * byte allows.
    */
  predicate StepOk(row: seq<Tile>, x: nat)
    requires x < |row|
  {
    var next := x + row[x].skip + 1;
    && row[x].skip < 255 && next <= |row|
    && (forall c :: x < c < next ==> row[c].index == 0)
    && (next == |row| || row[next].index != 0 || row[x].skip == 254)
  }

  /** From `from`, steps lead exactly to `to`, and the tiles they pass over are as they were. */
  predicate Leads(was: seq<Tile>, row: seq<Tile>, from: nat, to: nat)
    requires |was| == |row| && to <= |row|
    decreases if from < to then to - from else 0
  {
    from == to ||
    (from < to && StepOk(row, from) &&
     var next := from + row[from].skip + 1;
     row[from + 1..next] == was[from + 1..next] && Leads(was, row, next, to))
  }

  /** The columns a reader looks at that starts at `x` and passes over what each tile says. */
  function Walk(row: seq<Tile>, x: nat): seq<nat>
    decreases if x < |row| then |row| - x else 0
  {
    if x < |row| then [x] + Walk(row, x + row[x].skip + 1) else []
  }

  /** Where that reader stops. */
  function WalkEnd(row: seq<Tile>, x: nat): nat
    decreases if x < |row| then |row| - x else 0
  {
    if x < |row| then WalkEnd(row, x + row[x].skip + 1) else x
  }

  /** The reader misses no tile that is not empty, and stops at the end of the row and not beyond it. */
  lemma {:induction false} WalkVisits(was: seq<Tile>, row: seq<Tile>, x: nat)
    requires |was| == |row| && x <= |row| && Leads(was, row, x, |row|)
    ensures WalkEnd(row, x) == |row|
    ensures forall c :: x <= c < |row| && row[c].index != 0 ==> c in Walk(row, x)
    ensures forall k :: 0 <= k < |Walk(row, x)| ==> x <= Walk(row, x)[k] < |row|
    decreases |row| - x
  {
    if x < |row| {
      WalkVisits(was, row, x + row[x].skip + 1);
    }
  }

  /** A tile the reader passes over is as it was, its skip included. */
  lemma {:induction false} WalkPassesOver(was: seq<Tile>, row: seq<Tile>, x: nat, c: nat)
    requires |was| == |row| && x <= c < |row| && Leads(was, row, x, |row|) && c !in Walk(row, x)
    ensures row[c] == was[c] && row[c].index == 0
    decreases |row| - x
  {
    var next := x + row[x].skip + 1;
    assert x in Walk(row, x);
    if c < next {
      assert row[c] == row[x + 1..next][c - x - 1];
    } else {
      WalkPassesOver(was, row, next, c);
    }
  }

  /**
    * Between two columns the reader looks at there are at most 254 others, and fewer only up to a tile that is not
    * empty.
    */
  lemma {:induction false} WalkIsSparse(was: seq<Tile>, row: seq<Tile>, x: nat, k: nat)
    requires |was| == |row| && x <= |row| && Leads(was, row, x, |row|) && k + 1 < |Walk(row, x)|
    ensures var a, b := Walk(row, x)[k], Walk(row, x)[k + 1];
            a < b <= a + 255 && b < |row| && (row[b].index != 0 || b == a + 255)
    decreases |row| - x
  {
    var next := x + row[x].skip + 1;
    if k > 0 {
      WalkIsSparse(was, row, next, k - 1);
    }
  }

  /** Two rows with the same tiles but for their skips. */
  predicate SameTiles(a: seq<Tile>, b: seq<Tile>) {
    |a| == |b| && forall c :: 0 <= c < |a| ==> b[c] == a[c].(skip := b[c].skip)
  }

  lemma {:induction false} LeadsStep(was: seq<Tile>, row: seq<Tile>, from: nat, x: nat)
    requires |was| == |row| && x < |row| && from <= x && Leads(was, row, from, x) && StepOk(row, x)
    requires row[x + 1..] == was[x + 1..]
    ensures Leads(was, row, from, x + row[x].skip + 1)
    decreases x - from
  {
    if from < x {
      LeadsStep(was, row, from + row[from].skip + 1, x);
    } else {
      var next := x + row[x].skip + 1;
      assert row[x + 1..next] == row[x + 1..][..next - x - 1];
      assert was[x + 1..next] == was[x + 1..][..next - x - 1];
    }
  }

  lemma {:induction false} LeadsFrame(was: seq<Tile>, a: seq<Tile>, b: seq<Tile>, from: nat, to: nat)
    requires SameTiles(a, b) && |was| == |a| && to <= |a| && Leads(was, a, from, to)
    requires forall c :: 0 <= c < to ==> a[c] == b[c]
    ensures Leads(was, b, from, to)
    decreases if from < to then to - from else 0
  {
    if from < to {
      var next := from + a[from].skip + 1;
      LeadsWithin(was, a, next, to);
      assert a[from + 1..next] == b[from + 1..next];
      LeadsFrame(was, a, b, next, to);
    }
  }

  lemma LeadsWithin(was: seq<Tile>, row: seq<Tile>, from: nat, to: nat)
    requires |was| == |row| && to <= |row| && Leads(was, row, from, to)
    ensures from <= to
  {
  }

  function Row(tiles: seq<Tile>, base: nat, width: nat): seq<Tile>
    requires base + width <= |tiles|
  {
    tiles[base..base + width]
  }

  /** Row `b` is row `a` with the skips filled in, all but that of its first tile. */
  predicate Filled(a: seq<Tile>, b: seq<Tile>) {
    0 < |a| == |b| && SameTiles(a, b) && b[0] == a[0] && Leads(a, b, 1, |a|)
  }

  /**
    * A filled row, read from its second tile, shows every tile that is not empty and ends where it should; tiles
    * passed over were not written to.
    */
  lemma FilledVisits(a: seq<Tile>, b: seq<Tile>)
    requires Filled(a, b)
    ensures WalkEnd(b, 1) == |b|
    ensures forall c :: 1 <= c < |b| && a[c].index != 0 ==> c in Walk(b, 1)
    ensures forall c :: 1 <= c < |b| && c !in Walk(b, 1) ==> b[c] == a[c]
    ensures forall c :: 0 <= c < |b| ==> b[c] == a[c].(skip := b[c].skip)
  {
    WalkVisits(a, b, 1);
    forall c | 1 <= c < |b| && c !in Walk(b, 1)
      ensures b[c] == a[c]
    {
      WalkPassesOver(a, b, 1, c);
    }
  }

  /** The first `x` columns are done, and the others are as they were. */
  predicate FilledTo(was: seq<Tile>, row: seq<Tile>, x: nat) {
    1 <= x <= |was| == |row| && SameTiles(was, row) && row[0] == was[0] && Leads(was, row, 1, x) && row[x..] == was[x..]
  }

  lemma FoundStep(before: seq<Tile>, x: nat, skipped: nat)
    requires 1 <= skipped <= 255 && x + skipped <= |before|
    requires forall c :: x < c < x + skipped ==> before[c].index == 0
    requires x + skipped == |before| || before[x + skipped].index != 0 || skipped == 255
    ensures StepOk(before[x := before[x].(skip := skipped - 1)], x)
  {
  }

  lemma FilledNext(was: seq<Tile>, before: seq<Tile>, x: nat, skipped: nat)
    requires FilledTo(was, before, x) && 1 <= skipped <= 255 && x + skipped <= |was|
    requires forall c :: x < c < x + skipped ==> before[c].index == 0
    requires x + skipped == |was| || before[x + skipped].index != 0 || skipped == 255
    ensures FilledTo(was, before[x := before[x].(skip := skipped - 1)], x + skipped)
  {
    hide StepOk, Leads, SameTiles;
    var row := before[x := before[x].(skip := skipped - 1)];
    FoundStep(before, x, skipped);
    assert row[x + 1..] == before[x..][1..] && was[x + 1..] == was[x..][1..];
    SkipWritten(was, before, x, skipped - 1);
    LeadsFrame(was, before, row, 1, x);
    LeadsStep(was, row, 1, x);
    assert row[x + skipped..] == row[x + 1..][skipped - 1..] && was[x + skipped..] == was[x + 1..][skipped - 1..];
  }

  lemma SkipWritten(was: seq<Tile>, before: seq<Tile>, x: nat, skip: Byte)
    requires SameTiles(was, before) && x < |before|
    ensures SameTiles(was, before[x := before[x].(skip := skip)])
    ensures SameTiles(before, before[x := before[x].(skip := skip)])
  {
  }

  /** Fills in the skips of the row of `width` tiles that starts at `base`, all but that of its first tile. */
  method InitRow(tiles: array<Tile>, base: nat, width: nat)
    requires 0 < width && base + width <= tiles.Length
    modifies tiles
    ensures Filled(old(Row(tiles[..], base, width)), Row(tiles[..], base, width))
    ensures tiles[..base] == old(tiles[..base]) && tiles[base + width..] == old(tiles[base + width..])
  {
    hide Leads, SameTiles;
    ghost var was := Row(tiles[..], base, width);
    var x := 1;
    FilledNone(was);
    hide FilledTo;
    while x < width
      invariant 1 <= x <= width
      invariant FilledTo(was, Row(tiles[..], base, width), x)
      invariant tiles[..base] == old(tiles[..base]) && tiles[base + width..] == old(tiles[base + width..])
    {
      ghost var before := Row(tiles[..], base, width);
      var skipped := 1;
      while x + skipped < width && skipped < 255
        invariant 1 <= skipped <= 255 && x + skipped <= width
        invariant forall c :: x < c < x + skipped ==> before[c].index == 0
      {
        assert tiles[base + x + skipped] == before[x + skipped];
        if tiles[base + x + skipped].index != 0 {
          break;
        }
        skipped := skipped + 1;
      }
      FilledNext(was, before, x, skipped);
      tiles[base + x] := tiles[base + x].(skip := skipped - 1);
      assert Row(tiles[..], base, width) == before[x := before[x].(skip := skipped - 1)];
      x := x + skipped;
    }
    FilledAll(was, Row(tiles[..], base, width));
  }

  lemma FilledNone(was: seq<Tile>)
    requires was != []
    ensures FilledTo(was, was, 1)
  {
  }

  lemma FilledAll(was: seq<Tile>, row: seq<Tile>)
    requires |row| == |was| && FilledTo(was, row, |was|)
    ensures Filled(was, row)
  {
  }

  lemma RowsFit(y: nat, height: nat, width: nat)
    requires y < height
    ensures 0 <= y * width <= y * width + width <= height * width && y * width + width == (y + 1) * width
  {
    MulMonotone(0, y, width);
    MulMonotone(y + 1, height, width);
  }

  /** Row `y` of a layer, each `width` tiles long. */
  function LayerRow(tiles: seq<Tile>, y: nat, height: nat, width: nat): (row: seq<Tile>)
    requires y < height && height * width <= |tiles|
    ensures |row| == width
  {
    RowsFit(y, height, width);
    Row(tiles, y * width, width)
  }

  predicate RowFilled(was: seq<Tile>, tiles: seq<Tile>, y: nat, height: nat, width: nat)
    requires y < height && height * width <= |tiles| == |was|
  {
    Filled(LayerRow(was, y, height, width), LayerRow(tiles, y, height, width))
  }

  /** Fills in the skips of a layer, row by row; what lies behind the layer stays as it was. */
  method InitTilemapSkip(tiles: array<Tile>, height: nat, width: nat)
    requires height * width <= tiles.Length
    modifies tiles
    ensures width > 0 ==> forall y :: 0 <= y < height ==> RowFilled(old(tiles[..]), tiles[..], y, height, width)
    ensures 0 <= height * width && tiles[height * width..] == old(tiles[height * width..])
  {
    MulMonotone(0, height, width);
    if width == 0 {
      return;
    }
    ghost var was := tiles[..];
    hide RowFilled, Filled;
    for y := 0 to height
      invariant 0 <= y * width <= height * width
      invariant forall r :: 0 <= r < y ==> RowFilled(was, tiles[..], r, height, width)
      invariant tiles[y * width..] == was[y * width..]
    {
      RowsFit(y, height, width);
      ghost var before := tiles[..];
      InitRow(tiles, y * width, width);
      RowsStay(was, before, tiles[..], y, height, width, y * width);
    }
  }

  lemma RowsStay(was: seq<Tile>, before: seq<Tile>, after: seq<Tile>, y: nat, height: nat, width: nat, base: nat)
    requires 0 < width && y < height && height * width <= |was| == |before| == |after| &&
             base == y * width && base + width <= |was|
    requires before[base..] == was[base..]
    requires after[..base] == before[..base] && after[base + width..] == before[base + width..]
    requires Filled(Row(before, base, width), Row(after, base, width))
    requires forall r :: 0 <= r < y ==> RowFilled(was, before, r, height, width)
    ensures forall r :: 0 <= r <= y ==> RowFilled(was, after, r, height, width)
    ensures (y + 1) * width == base + width && after[base + width..] == was[base + width..]
  {
    hide Filled;
    RowsFit(y, height, width);
    assert Row(before, base, width) == before[base..][..width] == was[base..][..width] == Row(was, base, width);
    assert was[base + width..] == was[base..][width..] && before[base + width..] == before[base..][width..];
    forall r | 0 <= r < y
      ensures RowFilled(was, after, r, height, width)
    {
      assert RowFilled(was, before, r, height, width);
      EarlierRow(before, after, r, y, height, width, base);
    }
  }

  lemma EarlierRow(before: seq<Tile>, after: seq<Tile>, r: nat, y: nat, height: nat, width: nat, base: nat)
    requires r < y < height && height * width <= |before| == |after| && base == y * width <= |before|
    requires after[..base] == before[..base]
    ensures LayerRow(after, r, height, width) == LayerRow(before, r, height, width)
  {
    RowsFit(r, y, width);
    SliceOfPrefix(before, base, r * width, r * width + width);
    SliceOfPrefix(after, base, r * width, r * width + width);
  }

  lemma SliceOfPrefix(s: seq<Tile>, base: nat, lo: nat, hi: nat)
    requires lo <= hi <= base <= |s|
    ensures s[lo..hi] == s[..base][lo..hi]
  {
  }
}
