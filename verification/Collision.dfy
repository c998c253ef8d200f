/** Tile collision: boxes, points and lines against an arbitrary map, over the reals. */
module Collision {
  import opened Arith
  import opened Reals

  datatype Vec = Vec(x: real, y: real)

  function Add(a: Vec, b: Vec): Vec { Vec(a.x + b.x, a.y + b.y) }

  function Scale(a: Vec, k: real): Vec { Vec(a.x * k, a.y * k) }

  function Dot(a: Vec, b: Vec): real { a.x * b.x + a.y * b.y }

  function Mix(a: Vec, b: Vec, amount: real): Vec {
    Vec(a.x + (b.x - a.x) * amount, a.y + (b.y - a.y) * amount)
  }

  const TILE_SOLID := 1
  const TILE_NOHOOK := 3
  const TILE_NOLASER := 4

  datatype TileMap = NoMap | TileMap(tiles: seq<int>, width: nat, height: nat)

  predicate WellFormed(m: TileMap) {
    m.TileMap? ==> 0 < m.width && 0 < m.height && |m.tiles| == m.width * m.height
  }

  /** Division by 32 toward zero. */
  function TruncDiv32(x: int): int {
    if x >= 0 then x / 32 else -((-x) / 32)
  }

  function RoundToInt(f: real): int {
    if f > 0.0 then Truncate(f + 0.5) else Truncate(f - 0.5)
  }

  function Clamp(v: int, lo: int, hi: int): int {
    if v < lo then lo else if hi < v then hi else v
  }

  /** The column (or row) of `n` that a pixel coordinate falls into; the border tiles extend outwards for ever. */
  function Line(x: int, n: nat): (c: nat)
    requires 0 < n
    ensures c < n
  {
    Clamp(TruncDiv32(x), 0, n - 1)
  }

  /** The pixels of a line: 32 of them, and all that lie further out for the first and the last. */
  predicate InLine(x: int, c: nat, n: nat) {
    (c == 0 || 32 * c <= x) && (c == n - 1 || x < 32 * c + 32)
  }

  lemma LineIff(x: int, c: nat, n: nat)
    requires c < n
    ensures Line(x, n) == c <==> InLine(x, c, n)
  {
  }

  /** The nearest pixel, and the one further from zero in the middle between two. */
  lemma RoundNearest(f: real, x: int)
    ensures RoundToInt(f) == x <==>
      if f > 0.0 then x as real - 0.5 <= f < x as real + 0.5
      else x as real - 0.5 < f <= x as real + 0.5
  {
  }

  lemma IndexInMap(c: nat, r: nat, w: nat, h: nat)
    requires c < w && r < h
    ensures r * w + c < w * h
  {
    MulMonotone(r + 1, h, w);
  }

  function TileAt(m: TileMap, c: nat, r: nat): int
    requires WellFormed(m) && m.TileMap? && c < m.width && r < m.height
  {
    IndexInMap(c, r, m.width, m.height);
    var index := m.tiles[r * m.width + c];
    if TILE_SOLID <= index <= TILE_NOLASER then index else 0
  }

  function GetTile(m: TileMap, x: int, y: int): int
    requires WellFormed(m)
  {
    if m.NoMap? then 0 else TileAt(m, Line(x, m.width), Line(y, m.height))
  }

  predicate IsSolid(m: TileMap, x: int, y: int)
    requires WellFormed(m)
  {
    var index := GetTile(m, x, y);
    index == TILE_SOLID || index == TILE_NOHOOK
  }

  /** A pixel is solid exactly if its tile, or the border tile next to it, is one of the two solid ones. */
  lemma SolidIff(m: TileMap, x: int, y: int, c: nat, r: nat)
    requires WellFormed(m) && m.TileMap? && c < m.width && r < m.height
    requires InLine(x, c, m.width) && InLine(y, r, m.height)
    ensures r * m.width + c < |m.tiles|
    ensures IsSolid(m, x, y) <==> m.tiles[r * m.width + c] == 1 || m.tiles[r * m.width + c] == 3
  {
    hide Line;
    LineIff(x, c, m.width);
    LineIff(y, r, m.height);
    IndexInMap(c, r, m.width, m.height);
  }

  predicate CheckPoint(m: TileMap, p: Vec)
    requires WellFormed(m)
  {
    IsSolid(m, RoundToInt(p.x), RoundToInt(p.y))
  }

  /** The four corners, in the order in which the code looks at them. */
  predicate TestBox(m: TileMap, pos: Vec, size: Vec)
    requires WellFormed(m)
  {
    var half := Scale(size, 0.5);
    if CheckPoint(m, Vec(pos.x - half.x, pos.y - half.y)) then true
    else if CheckPoint(m, Vec(pos.x + half.x, pos.y - half.y)) then true
    else if CheckPoint(m, Vec(pos.x - half.x, pos.y + half.y)) then true
    else CheckPoint(m, Vec(pos.x + half.x, pos.y + half.y))
  }

  // ----- four corners are enough

  /** `p` lies in the closed box around `pos`. */
  predicate InBox(p: Vec, pos: Vec, size: Vec) {
    && pos.x - size.x * 0.5 <= p.x <= pos.x + size.x * 0.5
    && pos.y - size.y * 0.5 <= p.y <= pos.y + size.y * 0.5
  }

  ghost predicate AnySolidPoint(m: TileMap, pos: Vec, size: Vec)
    requires WellFormed(m)
  {
    exists p :: InBox(p, pos, size) && CheckPoint(m, p)
  }

  lemma RoundMonotone(f: real, g: real)
    requires f <= g
    ensures RoundToInt(f) <= RoundToInt(g)
  {
  }

  lemma LineMonotone(x: int, y: int, n: nat)
    requires x <= y && 0 < n
    ensures Line(x, n) <= Line(y, n)
  {
  }

  /** Two coordinates a tile's width apart are in the same or in adjacent lines. */
  lemma LineSpan(f: real, g: real, n: nat)
    requires f <= g <= f + 32.0 && 0 < n
    ensures Line(RoundToInt(f), n) <= Line(RoundToInt(g), n) <= Line(RoundToInt(f), n) + 1
  {
    RoundMonotone(f, g);
    LineMonotone(RoundToInt(f), RoundToInt(g), n);
    if f > 0.0 {
      assert RoundToInt(g) <= RoundToInt(f) + 32;
    } else {
      assert RoundToInt(g) <= 32 && RoundToInt(f) <= 0;
    }
  }

  /** So any coordinate between them shares a line with one of the two. */
  lemma LineBetween(f: real, p: real, g: real, n: nat)
    requires f <= p <= g <= f + 32.0 && 0 < n
    ensures Line(RoundToInt(p), n) == Line(RoundToInt(f), n) || Line(RoundToInt(p), n) == Line(RoundToInt(g), n)
  {
    LineSpan(f, g, n);
    RoundMonotone(f, p);
    RoundMonotone(p, g);
    LineMonotone(RoundToInt(f), RoundToInt(p), n);
    LineMonotone(RoundToInt(p), RoundToInt(g), n);
  }

  /** Looking at the corners finds a solid point if the box has one at all. */
  lemma CornersSuffice(m: TileMap, pos: Vec, size: Vec)
    requires WellFormed(m) && 0.0 <= size.x <= 32.0 && 0.0 <= size.y <= 32.0
    ensures TestBox(m, pos, size) <==> AnySolidPoint(m, pos, size)
  {
    hide Line, RoundToInt, TileAt;
    var l, r := pos.x - size.x * 0.5, pos.x + size.x * 0.5;
    var t, b := pos.y - size.y * 0.5, pos.y + size.y * 0.5;
    assert InBox(Vec(l, t), pos, size) && InBox(Vec(r, t), pos, size);
    assert InBox(Vec(l, b), pos, size) && InBox(Vec(r, b), pos, size);
    forall p | InBox(p, pos, size) && CheckPoint(m, p) ensures TestBox(m, pos, size) {
      LineBetween(l, p.x, r, m.width);
      LineBetween(t, p.y, b, m.height);
    }
  }

  /** Whether the corners suffice for boxes of one size, on every map and at every place. */
  ghost predicate CompleteFor(size: Vec) {
    forall m, pos :: WellFormed(m) && AnySolidPoint(m, pos, size) ==> TestBox(m, pos, size)
  }

  /** They suffice exactly for boxes no larger than a tile. */
  lemma CompleteIff(size: Vec)
    requires 0.0 <= size.x && 0.0 <= size.y
    ensures CompleteFor(size) <==> size.x <= 32.0 && size.y <= 32.0
  {
    hide TestBox, AnySolidPoint;
    if size.x <= 32.0 && size.y <= 32.0 {
      forall m, pos | WellFormed(m) && AnySolidPoint(m, pos, size) ensures TestBox(m, pos, size) {
        CornersSuffice(m, pos, size);
      }
    } else if size.x > 32.0 {
      TooWide(size);
    } else {
      TooHigh(size);
    }
  }

  /** A solid tile between two empty ones, in one row or in one column. */
  function Strip(wide: bool): (m: TileMap)
    ensures WellFormed(m)
  {
    if wide then TileMap([0, TILE_SOLID, 0], 3, 1) else TileMap([0, TILE_SOLID, 0], 1, 3)
  }

  lemma StripTiles(c: nat)
    requires c < 3
    ensures TileAt(Strip(true), c, 0) == TileAt(Strip(false), 0, c) == if c == 1 then TILE_SOLID else 0
  {
  }

  lemma OnlyLine(x: int)
    ensures Line(x, 1) == 0
  {
  }

  lemma TooWide(size: Vec)
    requires 32.0 < size.x && 0.0 <= size.y
    ensures !CompleteFor(size)
  {
    var m, pos := Strip(true), Vec(47.5, 0.0);
    LargeBoxMisses(size.x);
    StripCorners(pos, size);
    hide TestBox, CheckPoint;
    assert InBox(pos, pos, size);
    assert AnySolidPoint(m, pos, size);
  }

  lemma StripCorners(pos: Vec, size: Vec)
    requires Line(RoundToInt(pos.x - size.x * 0.5), 3) == 0 && Line(RoundToInt(pos.x), 3) == 1 &&
             Line(RoundToInt(pos.x + size.x * 0.5), 3) == 2
    ensures !TestBox(Strip(true), pos, size) && CheckPoint(Strip(true), pos)
  {
    hide TileAt, Line, RoundToInt;
    StripTiles(0);
    StripTiles(1);
    StripTiles(2);
    forall y ensures Line(y, 1) == 0 {
      OnlyLine(y);
    }
  }

  lemma TooHigh(size: Vec)
    requires 0.0 <= size.x && 32.0 < size.y
    ensures !CompleteFor(size)
  {
    var m, pos := Strip(false), Vec(0.0, 47.5);
    LargeBoxMisses(size.y);
    StripCornersHigh(pos, size);
    hide TestBox, CheckPoint;
    assert InBox(pos, pos, size);
    assert AnySolidPoint(m, pos, size);
  }

  lemma StripCornersHigh(pos: Vec, size: Vec)
    requires Line(RoundToInt(pos.y - size.y * 0.5), 3) == 0 && Line(RoundToInt(pos.y), 3) == 1 &&
             Line(RoundToInt(pos.y + size.y * 0.5), 3) == 2
    ensures !TestBox(Strip(false), pos, size) && CheckPoint(Strip(false), pos)
  {
    hide TileAt, Line, RoundToInt;
    StripTiles(0);
    StripTiles(1);
    StripTiles(2);
    forall x ensures Line(x, 1) == 0 {
      OnlyLine(x);
    }
  }

  /** The edges of a box wider than a tile can lie on both sides of one. */
  lemma LargeBoxMisses(s: real)
    requires s > 32.0
    ensures Line(RoundToInt(47.5 - s * 0.5), 3) == 0 && Line(RoundToInt(47.5), 3) == 1 &&
            Line(RoundToInt(47.5 + s * 0.5), 3) == 2
  {
  }

  // ----- moving

  function Bounced(v: real, elasticity: real): real { v * -elasticity }

  /** One component of the velocity after `hits` reflections. */
  function Reflected(v: real, elasticity: real, hits: nat): real {
    if hits == 0 then v else Bounced(Reflected(v, elasticity, hits - 1), elasticity)
  }

  function ClampUnit(e: real): (r: real)
    ensures -1.0 <= r <= 1.0
  {
    if e < -1.0 then -1.0 else if 1.0 < e then 1.0 else e
  }

  lemma {:induction false} ReflectedShrinks(v: real, e: real, hits: nat)
    requires -1.0 <= e <= 1.0
    ensures Abs(Reflected(v, e, hits)) <= Abs(v)
  {
    if hits > 0 {
      ReflectedShrinks(v, e, hits - 1);
      ProductShrinks(Reflected(v, e, hits - 1), e);
    }
  }

  lemma MulMonotoneReal(a: real, b: real, c: real)
    requires a <= b && 0.0 <= c
    ensures a * c <= b * c
  {
  }

  lemma ProductShrinks(v: real, e: real)
    requires -1.0 <= e <= 1.0
    ensures Abs(Bounced(v, e)) <= Abs(v)
  {
    MulMonotoneReal(-e, 1.0, Abs(v));
    MulMonotoneReal(-1.0, -e, Abs(v));
  }

  lemma SquareMonotone(a: real, b: real)
    requires Abs(a) <= Abs(b)
    ensures a * a <= b * b
  {
    var c, d := Abs(a), Abs(b);
    assert a * a == c * c && b * b == d * d;
    MulMonotoneReal(c, d, c);
    MulMonotoneReal(c, d, d);
  }

  /** A sub-step is shorter than one unit. */
  lemma StepIsShort(start: Vec, vel: Vec, distance: real, n: real, fraction: real)
    requires 0.0 <= distance < n && distance * distance == Dot(start, start)
    requires fraction * n == 1.0 && 0.0 < fraction
    requires Abs(vel.x) <= Abs(start.x) && Abs(vel.y) <= Abs(start.y)
    ensures Dot(Scale(vel, fraction), Scale(vel, fraction)) < 1.0
  {
    SquareMonotone(vel.x, start.x);
    SquareMonotone(vel.y, start.y);
    ScaledBelowOne(distance, n, fraction);
    SquareScaled(vel, distance, fraction);
  }

  lemma PositiveProduct(a: real, b: real, c: real)
    requires 0.0 < a && 0.0 < b && c == a * b
    ensures 0.0 < c
  {
    assert c <= 0.0 ==> a * b <= 0.0;
  }

  lemma ScaledBelowOne(distance: real, n: real, fraction: real)
    requires 0.0 <= distance < n && fraction * n == 1.0 && 0.0 < fraction
    ensures 0.0 <= distance * fraction < 1.0
  {
    var p, q := distance * fraction, n * fraction;
    PositiveProduct(n - distance, fraction, q - p);
    if distance > 0.0 {
      PositiveProduct(distance, fraction, p);
    }
  }

  lemma SquareScaled(vel: Vec, distance: real, fraction: real)
    requires 0.0 <= distance * fraction < 1.0 && Dot(vel, vel) <= distance * distance
    ensures Dot(Scale(vel, fraction), Scale(vel, fraction)) < 1.0
  {
    var d, f2 := distance * fraction, fraction * fraction;
    assert 0.0 <= f2;
    MulMonotoneReal(Dot(vel, vel), distance * distance, f2);
    ScaleSquares(vel, distance, fraction);
    MulMonotoneReal(d, 1.0, d);
    assert d * d <= 1.0 * d < 1.0;
  }

  lemma ScaleSquares(vel: Vec, distance: real, f: real)
    ensures Dot(Scale(vel, f), Scale(vel, f)) == Dot(vel, vel) * (f * f)
    ensures (distance * distance) * (f * f) == (distance * f) * (distance * f)
  {
    assert (vel.x * f) * (vel.x * f) == (vel.x * vel.x) * (f * f);
    assert (vel.y * f) * (vel.y * f) == (vel.y * vel.y) * (f * f);
  }

  ghost predicate FreePath(m: TileMap, path: seq<Vec>, size: Vec)
    requires WellFormed(m)
  {
    forall i :: 0 <= i < |path| ==> !TestBox(m, path[i], size)
  }

  function Gap(a: Vec, b: Vec): real {
    Dot(Vec(b.x - a.x, b.y - a.y), Vec(b.x - a.x, b.y - a.y))
  }

  /** Consecutive places are less than one unit apart. */
  ghost predicate FinePath(path: seq<Vec>) {
    forall i :: 0 < i < |path| ==> Gap(path[i - 1], path[i]) < 1.0
  }

  /** A path of the box from `from` to `to`, free of solid corners if its start is. */
  ghost predicate PathFrom(m: TileMap, path: seq<Vec>, from: Vec, to: Vec, size: Vec)
    requires WellFormed(m)
  {
    && |path| > 0 && path[0] == from && path[|path| - 1] == to && FinePath(path)
    && (!TestBox(m, from, size) ==> FreePath(m, path, size))
  }

  lemma PathExtends(m: TileMap, path: seq<Vec>, from: Vec, to: Vec, size: Vec, next: Vec)
    requires WellFormed(m) && PathFrom(m, path, from, to, size)
    requires Gap(to, next) < 1.0 && (!TestBox(m, to, size) ==> !TestBox(m, next, size))
    ensures PathFrom(m, path + [next], from, next, size)
  {
    hide TestBox, Gap;
  }

  /** A step along some of the axes is no longer than the whole step. */
  lemma PartialStepIsShort(pos: Vec, step: Vec, next: Vec)
    requires next.x == pos.x || next.x == pos.x + step.x
    requires next.y == pos.y || next.y == pos.y + step.y
    requires Dot(step, step) < 1.0
    ensures Gap(pos, next) < 1.0
  {
    assert step.x * step.x >= 0.0 && step.y * step.y >= 0.0;
  }

  /** Where `k` sub-steps straight ahead lead. */
  function Ahead(pos: Vec, vel: Vec, fraction: real, k: nat): Vec {
    Add(pos, Scale(vel, fraction * k as real))
  }

  /** The way straight ahead is free at every sub-step. */
  ghost predicate Unobstructed(m: TileMap, pos: Vec, vel: Vec, size: Vec, fraction: real, n: nat)
    requires WellFormed(m)
  {
    forall k: nat :: k <= n ==> !TestBox(m, Ahead(pos, vel, fraction, k), size)
  }

  lemma AheadStep(pos: Vec, vel: Vec, fraction: real, k: nat)
    ensures Add(Ahead(pos, vel, fraction, k), Scale(vel, fraction)) == Ahead(pos, vel, fraction, k + 1)
  {
    var a, b := fraction * k as real, fraction * (k + 1) as real;
    assert b == a + fraction;
    assert vel.x * b == vel.x * a + vel.x * fraction;
    assert vel.y * b == vel.y * a + vel.y * fraction;
  }

  lemma StepMoves(pos: Vec, vel: Vec, fraction: real)
    requires fraction > 0.0 && Add(pos, Scale(vel, fraction)) == pos
    ensures vel == Vec(0.0, 0.0)
  {
    assert vel.x * fraction == 0.0 && vel.y * fraction == 0.0;
  }

  /** A body on its way, and whether it has landed on something. */
  datatype Body = Body(pos: Vec, vel: Vec, grounded: bool)

  /**
    * A blocked step is reflected along an axis if it is blocked along that axis alone, and along both if it is
    * blocked along neither.
    */
  predicate HitX(m: TileMap, pos: Vec, to: Vec, size: Vec)
    requires WellFormed(m)
  {
    TestBox(m, to, size) && (TestBox(m, Vec(to.x, pos.y), size) || !TestBox(m, Vec(pos.x, to.y), size))
  }

  predicate HitY(m: TileMap, pos: Vec, to: Vec, size: Vec)
    requires WellFormed(m)
  {
    TestBox(m, to, size) && (TestBox(m, Vec(pos.x, to.y), size) || !TestBox(m, Vec(to.x, pos.y), size))
  }

  function Stepped(m: TileMap, b: Body, size: Vec, fraction: real, ex: real, ey: real): Body
    requires WellFormed(m)
  {
    var to := Add(b.pos, Scale(b.vel, fraction));
    var hitX, hitY := HitX(m, b.pos, to, size), HitY(m, b.pos, to, size);
    Body(Vec(if hitX then b.pos.x else to.x, if hitY then b.pos.y else to.y),
         Vec(if hitX then Bounced(b.vel.x, ex) else b.vel.x, if hitY then Bounced(b.vel.y, ey) else b.vel.y),
         b.grounded || (hitY && ey > 0.0 && b.vel.y > 0.0))
  }

  function SteppedTimes(m: TileMap, b: Body, size: Vec, fraction: real, ex: real, ey: real, n: nat): Body
    requires WellFormed(m)
  {
    if n == 0 then b else Stepped(m, SteppedTimes(m, b, size, fraction, ex, ey, n - 1), size, fraction, ex, ey)
  }

  /** A body at rest stays where it is, wherever that is: leaving the loop early changes nothing. */
  lemma {:induction false} RestStays(m: TileMap, b: Body, size: Vec, fraction: real, ex: real, ey: real, i: nat, n: nat)
    requires WellFormed(m) && i <= n && SteppedTimes(m, b, size, fraction, ex, ey, i).vel == Vec(0.0, 0.0)
    ensures SteppedTimes(m, b, size, fraction, ex, ey, n) == SteppedTimes(m, b, size, fraction, ex, ey, i)
  {
    hide HitX, HitY;
    if i < n {
      RestStays(m, b, size, fraction, ex, ey, i, n - 1);
    }
  }

  /**
    * What becomes of a step to `to`: taken if that is free; slid along the axis that is free if one is; else undone.
    * A body lands when its fall is reflected.
    */
  predicate StepCases(m: TileMap, pos: Vec, vel: Vec, size: Vec, to: Vec, ex: real, ey: real, next: Body)
    requires WellFormed(m)
  {
    var blockedX, blockedY := TestBox(m, Vec(to.x, pos.y), size), TestBox(m, Vec(pos.x, to.y), size);
    if !TestBox(m, to, size) then
      next == Body(to, vel, false)
    else if blockedY && !blockedX then
      next == Body(Vec(to.x, pos.y), Vec(vel.x, -ey * vel.y), ey > 0.0 && vel.y > 0.0)
    else if blockedX && !blockedY then
      next == Body(Vec(pos.x, to.y), Vec(-ex * vel.x, vel.y), false)
    else
      next == Body(pos, Vec(-ex * vel.x, -ey * vel.y), ey > 0.0 && vel.y > 0.0)
  }

  lemma SteppedCases(m: TileMap, b: Body, size: Vec, fraction: real, ex: real, ey: real)
    requires WellFormed(m)
    ensures StepCases(m, b.pos, b.vel, size, Add(b.pos, Scale(b.vel, fraction)), ex, ey,
                      Stepped(m, b.(grounded := false), size, fraction, ex, ey))
    ensures Stepped(m, b, size, fraction, ex, ey).grounded
      <==> b.grounded || Stepped(m, b.(grounded := false), size, fraction, ex, ey).grounded
    ensures Stepped(m, b, size, fraction, ex, ey).(grounded := false)
      == Stepped(m, b.(grounded := false), size, fraction, ex, ey).(grounded := false)
  {
    hide TestBox, Scale;
  }

  /** One turn of the loop in MoveBox: the new place and velocity, and which axes were reflected. */
  method SubStep(m: TileMap, pos: Vec, vel: Vec, size: Vec, fraction: real, ex: real, ey: real)
    returns (newPos: Vec, newVel: Vec, grounded: bool, hitX: bool, hitY: bool)
    requires WellFormed(m)
    ensures Body(newPos, newVel, grounded) == Stepped(m, Body(pos, vel, false), size, fraction, ex, ey)
    ensures var to := Add(pos, Scale(vel, fraction)); hitX == HitX(m, pos, to, size) && hitY == HitY(m, pos, to, size)
    ensures !TestBox(m, pos, size) ==> !TestBox(m, newPos, size)
    ensures StepCases(m, pos, vel, size, Add(pos, Scale(vel, fraction)), ex, ey, Body(newPos, newVel, grounded))
  {
    hide TestBox;
    newPos, newVel := Add(pos, Scale(vel, fraction)), vel;
    grounded, hitX, hitY := false, false, false;
    if TestBox(m, Vec(newPos.x, newPos.y), size) {
      var hits := 0;
      if TestBox(m, Vec(pos.x, newPos.y), size) {
        if ey > 0.0 && newVel.y > 0.0 {
          grounded := true;
        }
        newPos := newPos.(y := pos.y);
        newVel := newVel.(y := newVel.y * -ey);
        hits, hitY := hits + 1, true;
      }
      if TestBox(m, Vec(newPos.x, pos.y), size) {
        newPos := newPos.(x := pos.x);
        newVel := newVel.(x := newVel.x * -ex);
        hits, hitX := hits + 1, true;
      }
      if hits == 0 {
        if ey > 0.0 && newVel.y > 0.0 {
          grounded := true;
        }
        newPos := pos;
        newVel := Vec(newVel.x * -ex, newVel.y * -ey);
        hitX, hitY := true, true;
      }
    }
  }

  /** What one turn does to a body that may have landed before. */
  lemma SteppedParts(m: TileMap, b: Body, size: Vec, fraction: real, ex: real, ey: real)
    requires WellFormed(m)
    ensures var s, fresh', to := Stepped(m, b, size, fraction, ex, ey),
                Stepped(m, b.(grounded := false), size, fraction, ex, ey),
                Add(b.pos, Scale(b.vel, fraction));
            && s == fresh'.(grounded := b.grounded || fresh'.grounded)
            && (s.pos.x == b.pos.x || s.pos.x == to.x) && (s.pos.y == b.pos.y || s.pos.y == to.y)
            && s.vel.x == (if HitX(m, b.pos, to, size) then Bounced(b.vel.x, ex) else b.vel.x)
            && s.vel.y == (if HitY(m, b.pos, to, size) then Bounced(b.vel.y, ey) else b.vel.y)
            && (s.grounded ==> b.grounded || (HitY(m, b.pos, to, size) && ey > 0.0))
  {
    hide TestBox;
  }

  function Fraction(distance: real): (f: real)
    requires 0.0 <= distance
    ensures 0.0 < f && f * (Truncate(distance) + 1) as real == 1.0
  {
    1.0 / (Truncate(distance) + 1) as real
  }

  /** Where all sub-steps lead: one more of them than whole units in the length of the velocity. */
  function Moved(m: TileMap, b: Body, size: Vec, elasticity: Vec, distance: real): Body
    requires WellFormed(m) && 0.0 <= distance
  {
    if distance > 0.00001 then
      SteppedTimes(m, b, size, Fraction(distance), ClampUnit(elasticity.x), ClampUnit(elasticity.y),
                   Truncate(distance) + 1)
    else b
  }

  /** After `i` turns: the body has gone along `path` and was reflected that often along each axis. */
  ghost predicate OnTheWay(m: TileMap, start: Body, size: Vec, fraction: real, ex: real, ey: real,
                           path: seq<Vec>, b: Body, i: nat, hitsX: nat, hitsY: nat)
    requires WellFormed(m)
  {
    && b == SteppedTimes(m, start, size, fraction, ex, ey, i)
    && PathFrom(m, path, start.pos, b.pos, size)
    && b.vel == Vec(Reflected(start.vel.x, ex, hitsX), Reflected(start.vel.y, ey, hitsY))
    && (b.grounded ==> start.grounded || (hitsY > 0 && ey > 0.0))
  }

  lemma Turn(m: TileMap, start: Body, size: Vec, distance: real, n: nat, fraction: real,
             ex: real, ey: real, path: seq<Vec>, b: Body, i: nat, hitsX: nat, hitsY: nat)
    requires WellFormed(m) && OnTheWay(m, start, size, fraction, ex, ey, path, b, i, hitsX, hitsY)
    requires 0.0 <= distance < n as real && distance * distance == Dot(start.vel, start.vel)
    requires fraction * n as real == 1.0 && 0.0 < fraction && -1.0 <= ex <= 1.0 && -1.0 <= ey <= 1.0
    ensures var next, to := Stepped(m, b, size, fraction, ex, ey), Add(b.pos, Scale(b.vel, fraction));
            OnTheWay(m, start, size, fraction, ex, ey, path + [next.pos], next, i + 1,
              if HitX(m, b.pos, to, size) then hitsX + 1 else hitsX,
              if HitY(m, b.pos, to, size) then hitsY + 1 else hitsY)
  {
    SteppedParts(m, b, size, fraction, ex, ey);
    ReflectedShrinks(start.vel.x, ex, hitsX);
    ReflectedShrinks(start.vel.y, ey, hitsY);
    ReflectedOnce(start.vel.x, ex, hitsX);
    ReflectedOnce(start.vel.y, ey, hitsY);
    hide TestBox, Dot, Stepped, HitX, HitY, PathFrom, Reflected, Bounced, Abs, Scale;
    TurnOfPath(m, start, size, distance, n, fraction, ex, ey, path, b);
  }

  lemma ReflectedOnce(v: real, e: real, hits: nat)
    ensures Reflected(v, e, hits + 1) == Bounced(Reflected(v, e, hits), e)
  {
  }

  lemma TurnOfPath(m: TileMap, start: Body, size: Vec, distance: real, n: nat, fraction: real,
                   ex: real, ey: real, path: seq<Vec>, b: Body)
    requires WellFormed(m) && PathFrom(m, path, start.pos, b.pos, size)
    requires 0.0 <= distance < n as real && distance * distance == Dot(start.vel, start.vel)
    requires fraction * n as real == 1.0 && 0.0 < fraction
    requires Abs(b.vel.x) <= Abs(start.vel.x) && Abs(b.vel.y) <= Abs(start.vel.y)
    ensures var next := Stepped(m, b, size, fraction, ex, ey).pos; PathFrom(m, path + [next], start.pos, next, size)
  {
    hide TestBox, Dot, Stepped, HitX, HitY, Gap, PathFrom, Scale;
    SteppedParts(m, b, size, fraction, ex, ey);
    StepStaysFree(m, b, size, fraction, ex, ey);
    StepIsShort(start.vel, b.vel, distance, n as real, fraction);
    var next := Stepped(m, b, size, fraction, ex, ey).pos;
    PartialStepIsShort(b.pos, Scale(b.vel, fraction), next);
    PathExtends(m, path, start.pos, b.pos, size, next);
  }

  lemma StepStaysFree(m: TileMap, b: Body, size: Vec, fraction: real, ex: real, ey: real)
    requires WellFormed(m)
    ensures !TestBox(m, b.pos, size) ==> !TestBox(m, Stepped(m, b, size, fraction, ex, ey).pos, size)
  {
    hide TestBox;
  }

  lemma StraightStep(m: TileMap, b: Body, size: Vec, fraction: real, ex: real, ey: real)
    requires WellFormed(m) && !TestBox(m, Add(b.pos, Scale(b.vel, fraction)), size)
    ensures Stepped(m, b, size, fraction, ex, ey) == Body(Add(b.pos, Scale(b.vel, fraction)), b.vel, b.grounded)
  {
    hide TestBox, Scale;
  }

  /** Where nothing is in the way the body goes straight on. */
  lemma {:induction false} StraightOn(m: TileMap, start: Body, size: Vec, fraction: real, ex: real, ey: real,
                                      n: nat, i: nat)
    requires WellFormed(m) && i <= n && Unobstructed(m, start.pos, start.vel, size, fraction, n)
    ensures SteppedTimes(m, start, size, fraction, ex, ey, i)
      == Body(Ahead(start.pos, start.vel, fraction, i), start.vel, start.grounded)
  {
    hide TestBox, Ahead, Stepped, Add, Scale, SteppedTimes;
    if i == 0 {
      AheadStart(start.pos, start.vel, fraction);
      NoSteps(m, start, size, fraction, ex, ey);
    } else {
      StraightOn(m, start, size, fraction, ex, ey, n, i - 1);
      AheadStep(start.pos, start.vel, fraction, i - 1);
      var b := Body(Ahead(start.pos, start.vel, fraction, i - 1), start.vel, start.grounded);
      OneMoreStep(m, start, b, size, fraction, ex, ey, i);
      StraightStep(m, b, size, fraction, ex, ey);
    }
  }

  lemma NoSteps(m: TileMap, b: Body, size: Vec, fraction: real, ex: real, ey: real)
    requires WellFormed(m)
    ensures SteppedTimes(m, b, size, fraction, ex, ey, 0) == b
  {
  }

  lemma OneMoreStep(m: TileMap, start: Body, b: Body, size: Vec, fraction: real, ex: real, ey: real, i: nat)
    requires WellFormed(m) && i > 0 && SteppedTimes(m, start, size, fraction, ex, ey, i - 1) == b
    ensures SteppedTimes(m, start, size, fraction, ex, ey, i) == Stepped(m, b, size, fraction, ex, ey)
  {
    hide Stepped;
  }

  /** With nothing in the way a body is moved by its velocity. */
  lemma FreeMove(m: TileMap, start: Body, size: Vec, elasticity: Vec, distance: real)
    requires WellFormed(m) && 0.00001 < distance
    requires Unobstructed(m, start.pos, start.vel, size, Fraction(distance), Truncate(distance) + 1)
    ensures Moved(m, start, size, elasticity, distance) == Body(Add(start.pos, start.vel), start.vel, start.grounded)
  {
    hide Truncate, Fraction, ClampUnit, Unobstructed, Ahead, SteppedTimes;
    TruncateBound(distance);
    var n := Truncate(distance) + 1;
    StraightOn(m, start, size, Fraction(distance), ClampUnit(elasticity.x), ClampUnit(elasticity.y), n, n);
    AheadEnd(start.pos, start.vel, Fraction(distance), n);
  }

  // ----- on a floor and along a wall

  /** The box is free exactly above `y`, whatever its column. */
  ghost predicate Floor(m: TileMap, size: Vec, y: real)
    requires WellFormed(m)
  {
    forall pos :: TestBox(m, pos, size) <==> y <= pos.y
  }

  /** The box is free exactly to the left of `x`. */
  ghost predicate Wall(m: TileMap, size: Vec, x: real)
    requires WellFormed(m)
  {
    forall pos :: TestBox(m, pos, size) <==> x <= pos.x
  }

  /** A row of solid tiles under an empty one, and a column of them beside an empty one. */
  lemma FloorsAndWalls(size: Vec)
    requires 0.0 <= size.x && 0.0 <= size.y
    ensures WellFormed(TileMap([0, 1], 1, 2)) && Floor(TileMap([0, 1], 1, 2), size, 31.5 - size.y * 0.5)
    ensures WellFormed(TileMap([0, 1], 2, 1)) && Wall(TileMap([0, 1], 2, 1), size, 31.5 - size.x * 0.5)
  {
    hide IsSolid, RoundToInt;
    var f, w := TileMap([0, 1], 1, 2), TileMap([0, 1], 2, 1);
    forall p ensures CheckPoint(f, p) <==> 31.5 <= p.y {
      HalfSolid(f, RoundToInt(p.x), RoundToInt(p.y));
      RoundAt32(p.y);
    }
    forall p ensures CheckPoint(w, p) <==> 31.5 <= p.x {
      HalfSolid(w, RoundToInt(p.x), RoundToInt(p.y));
      RoundAt32(p.x);
    }
    hide CheckPoint;
  }

  lemma RoundAt32(f: real)
    ensures RoundToInt(f) >= 32 <==> f >= 31.5
  {
  }

  lemma HalfSolid(m: TileMap, x: int, y: int)
    requires m == TileMap([0, 1], 1, 2) || m == TileMap([0, 1], 2, 1)
    ensures WellFormed(m) && (IsSolid(m, x, y) <==> if m.width == 1 then y >= 32 else x >= 32)
  {
  }

  /** What has become of one axis after part `a` of a move that meets the barrier `f`. */
  predicate Along(p0: real, v0: real, f: real, e: real, a: real, p: real, v: real, landed: bool) {
    && p < f
    && (landed ==> v0 > 0.0 && e > 0.0)
    && if f <= p0 + v0 * a then v0 > 0.0 && (e > 0.0 ==> landed) && (e >= 0.0 ==> v == -e * v0)
       else v == v0 && p == p0 + v0 * a && !landed
  }

  /** One step along an axis with a barrier, to place `q`, speed `u` and landing `down`. */
  lemma AlongStep(p0: real, v0: real, f: real, e: real, a: real, d: real, p: real, v: real, landed: bool,
                  q: real, u: real, down: bool)
    requires Along(p0, v0, f, e, a, p, v, landed) && 0.0 < d && -1.0 <= e <= 1.0
    requires p + v * d < f ==> q == p + v * d && u == v && down == landed
    requires f <= p + v * d ==> q == p && u == v * -e && down == (landed || (e > 0.0 && v > 0.0))
    ensures Along(p0, v0, f, e, a + d, q, u, down)
  {
  }

  lemma FloorStep(m: TileMap, s: Body, size: Vec, d: real, ex: real, ey: real, f: real)
    requires WellFormed(m) && Floor(m, size, f) && s.pos.y < f
    ensures var t, to := Stepped(m, s, size, d, ex, ey), s.pos.y + s.vel.y * d;
            && t.pos.x == s.pos.x + s.vel.x * d && t.vel.x == s.vel.x
            && (to < f ==> t.pos.y == to && t.vel.y == s.vel.y && t.grounded == s.grounded)
            && (f <= to ==> t.pos.y == s.pos.y && t.vel.y == s.vel.y * -ey &&
                            t.grounded == (s.grounded || (ey > 0.0 && s.vel.y > 0.0)))
  {
    hide TestBox;
  }

  lemma WallStep(m: TileMap, s: Body, size: Vec, d: real, ex: real, ey: real, w: real)
    requires WellFormed(m) && Wall(m, size, w) && s.pos.x < w
    ensures var t, to := Stepped(m, s, size, d, ex, ey), s.pos.x + s.vel.x * d;
            && t.pos.y == s.pos.y + s.vel.y * d && t.vel.y == s.vel.y && t.grounded == s.grounded
            && (to < w ==> t.pos.x == to && t.vel.x == s.vel.x)
            && (w <= to ==> t.pos.x == s.pos.x && t.vel.x == s.vel.x * -ex)
  {
    hide TestBox;
  }

  /** After part `a` of a move over a floor. */
  predicate OverFloor(b: Body, f: real, e: real, a: real, t: Body) {
    && t.vel.x == b.vel.x && t.pos.x == b.pos.x + b.vel.x * a
    && Along(b.pos.y, b.vel.y, f, e, a, t.pos.y, t.vel.y, t.grounded)
  }

  lemma FloorTurn(m: TileMap, b: Body, s: Body, size: Vec, d: real, ex: real, ey: real, f: real, a: real)
    requires WellFormed(m) && Floor(m, size, f) && 0.0 < d && -1.0 <= ey <= 1.0
    requires OverFloor(b, f, ey, a, s)
    ensures OverFloor(b, f, ey, a + d, Stepped(m, s, size, d, ex, ey))
  {
    hide Floor, Stepped, Along;
    BelowBarrier(b.pos.y, b.vel.y, f, ey, a, s.pos.y, s.vel.y, s.grounded);
    FloorStep(m, s, size, d, ex, ey, f);
    var t := Stepped(m, s, size, d, ex, ey);
    AlongStep(b.pos.y, b.vel.y, f, ey, a, d, s.pos.y, s.vel.y, s.grounded, t.pos.y, t.vel.y, t.grounded);
    assert b.vel.x * a + b.vel.x * d == b.vel.x * (a + d);
  }

  lemma {:induction false} FloorSteps(m: TileMap, b: Body, size: Vec, d: real, ex: real, ey: real, f: real, i: nat)
    requires WellFormed(m) && Floor(m, size, f) && b.pos.y < f && !b.grounded
    requires 0.0 < d && -1.0 <= ey <= 1.0
    ensures OverFloor(b, f, ey, d * i as real, SteppedTimes(m, b, size, d, ex, ey, i))
  {
    hide Stepped, SteppedTimes, Floor, OverFloor;
    if i == 0 {
      NoSteps(m, b, size, d, ex, ey);
      OverFloorStart(b, f, ey, d * i as real);
    } else {
      FloorSteps(m, b, size, d, ex, ey, f, i - 1);
      var s, a := SteppedTimes(m, b, size, d, ex, ey, i - 1), d * (i - 1) as real;
      OneMoreStep(m, b, s, size, d, ex, ey, i);
      FloorTurn(m, b, s, size, d, ex, ey, f, a);
      assert a + d == d * i as real;
    }
  }

  lemma OverFloorStart(b: Body, f: real, e: real, a: real)
    requires b.pos.y < f && !b.grounded && a == 0.0
    ensures OverFloor(b, f, e, a, b)
  {
  }

  /** After part `a` of a move beside a wall; `hit` says whether a body that bounces has touched it. */
  predicate BesideWall(b: Body, w: real, e: real, a: real, t: Body, hit: bool) {
    && t.vel.y == b.vel.y && t.pos.y == b.pos.y + b.vel.y * a && !t.grounded
    && Along(b.pos.x, b.vel.x, w, e, a, t.pos.x, t.vel.x, hit)
  }

  lemma WallTurn(m: TileMap, b: Body, s: Body, size: Vec, d: real, ex: real, ey: real, w: real, a: real, hit: bool)
    returns (next: bool)
    requires WellFormed(m) && Wall(m, size, w) && 0.0 < d && -1.0 <= ex <= 1.0
    requires BesideWall(b, w, ex, a, s, hit)
    ensures BesideWall(b, w, ex, a + d, Stepped(m, s, size, d, ex, ey), next)
  {
    hide Wall, Stepped, Along;
    BelowBarrier(b.pos.x, b.vel.x, w, ex, a, s.pos.x, s.vel.x, hit);
    WallStep(m, s, size, d, ex, ey, w);
    var t := Stepped(m, s, size, d, ex, ey);
    next := hit || (w <= s.pos.x + s.vel.x * d && ex > 0.0 && s.vel.x > 0.0);
    AlongStep(b.pos.x, b.vel.x, w, ex, a, d, s.pos.x, s.vel.x, hit, t.pos.x, t.vel.x, next);
    assert b.vel.y * a + b.vel.y * d == b.vel.y * (a + d);
  }

  lemma {:induction false} WallSteps(m: TileMap, b: Body, size: Vec, d: real, ex: real, ey: real, w: real, i: nat)
    returns (hit: bool)
    requires WellFormed(m) && Wall(m, size, w) && b.pos.x < w && !b.grounded
    requires 0.0 < d && -1.0 <= ex <= 1.0
    ensures BesideWall(b, w, ex, d * i as real, SteppedTimes(m, b, size, d, ex, ey, i), hit)
  {
    hide Stepped, SteppedTimes, Wall, BesideWall;
    hit := false;
    if i == 0 {
      NoSteps(m, b, size, d, ex, ey);
      BesideWallStart(b, w, ex, d * i as real);
    } else {
      hit := WallSteps(m, b, size, d, ex, ey, w, i - 1);
      var s, a := SteppedTimes(m, b, size, d, ex, ey, i - 1), d * (i - 1) as real;
      OneMoreStep(m, b, s, size, d, ex, ey, i);
      hit := WallTurn(m, b, s, size, d, ex, ey, w, a, hit);
      assert a + d == d * i as real;
    }
  }

  lemma BesideWallStart(b: Body, w: real, e: real, a: real)
    requires b.pos.x < w && !b.grounded && a == 0.0
    ensures BesideWall(b, w, e, a, b, false)
  {
  }

  lemma BelowBarrier(p0: real, v0: real, f: real, e: real, a: real, p: real, v: real, landed: bool)
    requires Along(p0, v0, f, e, a, p, v, landed)
    ensures p < f
  {
  }

  /**
    * Over a floor a body keeps its sideways motion whole. It lands exactly if it would have reached the floor and
    * bounces at all, and leaves with the reflected fall.
    */
  lemma FloorMove(m: TileMap, b: Body, size: Vec, elasticity: Vec, distance: real, f: real)
    requires WellFormed(m) && Floor(m, size, f) && b.pos.y < f && !b.grounded && 0.00001 < distance
    ensures var t, e := Moved(m, b, size, elasticity, distance), ClampUnit(elasticity.y);
            && t.pos.x == b.pos.x + b.vel.x && t.vel.x == b.vel.x && t.pos.y < f
            && (t.grounded <==> f <= b.pos.y + b.vel.y && e > 0.0)
            && (b.pos.y + b.vel.y < f ==> t.pos.y == b.pos.y + b.vel.y && t.vel.y == b.vel.y)
            && (f <= b.pos.y + b.vel.y && e >= 0.0 ==> t.vel.y == -e * b.vel.y)
  {
    hide TestBox, Truncate, Fraction, SteppedTimes, Floor;
    TruncateBound(distance);
    FloorSteps(m, b, size, Fraction(distance), ClampUnit(elasticity.x), ClampUnit(elasticity.y), f,
               Truncate(distance) + 1);
  }

  /** And along a wall its fall or rise; a wall is nothing to land on. */
  lemma WallMove(m: TileMap, b: Body, size: Vec, elasticity: Vec, distance: real, w: real)
    requires WellFormed(m) && Wall(m, size, w) && b.pos.x < w && !b.grounded && 0.00001 < distance
    ensures var t, e := Moved(m, b, size, elasticity, distance), ClampUnit(elasticity.x);
            && t.pos.y == b.pos.y + b.vel.y && t.vel.y == b.vel.y && t.pos.x < w && !t.grounded
            && (b.pos.x + b.vel.x < w ==> t.pos.x == b.pos.x + b.vel.x && t.vel.x == b.vel.x)
            && (w <= b.pos.x + b.vel.x && e >= 0.0 ==> t.vel.x == -e * b.vel.x)
  {
    hide TestBox, Truncate, Fraction, SteppedTimes, Wall;
    TruncateBound(distance);
    var hit := WallSteps(m, b, size, Fraction(distance), ClampUnit(elasticity.x), ClampUnit(elasticity.y), w,
                         Truncate(distance) + 1);
  }

  /** CCollision::MoveBox; `distance` is the length of the velocity. */
  method MoveBox(m: TileMap, pos0: Vec, vel0: Vec, size: Vec, elasticity: Vec, distance: real)
    returns (pos: Vec, vel: Vec, grounded: bool, ghost path: seq<Vec>, ghost hitsX: nat, ghost hitsY: nat)
    requires WellFormed(m) && 0.0 <= distance && distance * distance == Dot(vel0, vel0)
    ensures Body(pos, vel, grounded) == Moved(m, Body(pos0, vel0, false), size, elasticity, distance)
    ensures PathFrom(m, path, pos0, pos, size)
    ensures vel == Vec(Reflected(vel0.x, ClampUnit(elasticity.x), hitsX),
                       Reflected(vel0.y, ClampUnit(elasticity.y), hitsY))
    ensures Abs(vel.x) <= Abs(vel0.x) && Abs(vel.y) <= Abs(vel0.y)
    ensures grounded ==> hitsY > 0 && elasticity.y > 0.0
    ensures forall f :: Floor(m, size, f) && pos0.y < f && 0.00001 < distance ==>
      && pos.x == pos0.x + vel0.x && vel.x == vel0.x && pos.y < f
      && (grounded <==> f <= pos0.y + vel0.y && elasticity.y > 0.0)
    ensures forall w :: Wall(m, size, w) && pos0.x < w && 0.00001 < distance ==>
      pos.y == pos0.y + vel0.y && vel.y == vel0.y && pos.x < w && !grounded
  {
    hide TestBox, Truncate, Dot, Fraction, PathFrom, Reflected, OnTheWay, SteppedTimes, Stepped, HitX, HitY, Gap;
    hide Floor, Wall, Moved;
    ghost var start := Body(pos0, vel0, false);
    pos, vel, grounded := pos0, vel0, false;
    path, hitsX, hitsY := [pos0], 0, 0;
    StartOfPath(m, pos0, vel0, size, elasticity);
    var max := Truncate(distance);
    TruncateBound(distance);
    if distance > 0.00001 {
      var fraction := Fraction(distance);
      var ex, ey := ClampUnit(elasticity.x), ClampUnit(elasticity.y);
      AtStart(m, start, size, fraction, ex, ey);
      var i := 0;
      while i <= max
        invariant 0 <= i <= max + 1
        invariant OnTheWay(m, start, size, fraction, ex, ey, path, Body(pos, vel, grounded), i, hitsX, hitsY)
      {
        OnTheWayMeans(m, start, size, fraction, ex, ey, path, Body(pos, vel, grounded), i, hitsX, hitsY);
        if vel == Vec(0.0, 0.0) {
          RestStays(m, start, size, fraction, ex, ey, i, max + 1);
          break;
        }
        var newPos := Add(pos, Scale(vel, fraction));
        if newPos == pos {
          StepMoves(pos, vel, fraction);
          break;
        }
        Turn(m, start, size, distance, max + 1, fraction, ex, ey, path, Body(pos, vel, grounded), i, hitsX, hitsY);
        SteppedParts(m, Body(pos, vel, grounded), size, fraction, ex, ey);
        var newVel, down, hitX, hitY;
        newPos, newVel, down, hitX, hitY := SubStep(m, pos, vel, size, fraction, ex, ey);
        grounded := grounded || down;
        pos, vel := newPos, newVel;
        path := path + [pos];
        hitsX, hitsY := if hitX then hitsX + 1 else hitsX, if hitY then hitsY + 1 else hitsY;
        i := i + 1;
      }
      OnTheWayMeans(m, start, size, fraction, ex, ey, path, Body(pos, vel, grounded), i, hitsX, hitsY);
    }
    ReflectedShrinks(vel0.x, ClampUnit(elasticity.x), hitsX);
    ReflectedShrinks(vel0.y, ClampUnit(elasticity.y), hitsY);
    MovedMeans(m, start, size, elasticity, distance);
    forall f | Floor(m, size, f) && pos0.y < f && 0.00001 < distance
      ensures pos.x == pos0.x + vel0.x && vel.x == vel0.x && pos.y < f
      ensures grounded <==> f <= pos0.y + vel0.y && elasticity.y > 0.0
    {
      FloorMove(m, start, size, elasticity, distance, f);
    }
    forall w | Wall(m, size, w) && pos0.x < w && 0.00001 < distance
      ensures pos.y == pos0.y + vel0.y && vel.y == vel0.y && pos.x < w && !grounded
    {
      WallMove(m, start, size, elasticity, distance, w);
    }
  }

  lemma MovedMeans(m: TileMap, b: Body, size: Vec, elasticity: Vec, distance: real)
    requires WellFormed(m) && 0.0 <= distance
    ensures Moved(m, b, size, elasticity, distance) ==
      if distance > 0.00001 then
        SteppedTimes(m, b, size, Fraction(distance), ClampUnit(elasticity.x), ClampUnit(elasticity.y),
                     Truncate(distance) + 1)
      else b
  {
  }

  lemma AtStart(m: TileMap, start: Body, size: Vec, fraction: real, ex: real, ey: real)
    requires WellFormed(m)
    ensures OnTheWay(m, start, size, fraction, ex, ey, [start.pos], start, 0, 0, 0)
  {
    hide TestBox;
  }

  lemma OnTheWayMeans(m: TileMap, start: Body, size: Vec, fraction: real, ex: real, ey: real,
                      path: seq<Vec>, b: Body, i: nat, hitsX: nat, hitsY: nat)
    requires WellFormed(m) && OnTheWay(m, start, size, fraction, ex, ey, path, b, i, hitsX, hitsY)
    ensures b == SteppedTimes(m, start, size, fraction, ex, ey, i) && PathFrom(m, path, start.pos, b.pos, size)
    ensures b.vel == Vec(Reflected(start.vel.x, ex, hitsX), Reflected(start.vel.y, ey, hitsY))
    ensures b.grounded ==> start.grounded || (hitsY > 0 && ey > 0.0)
  {
  }

  lemma TruncateBound(f: real)
    requires 0.0 <= f
    ensures 0 <= Truncate(f) && f < (Truncate(f) + 1) as real
  {
  }

  lemma StartOfPath(m: TileMap, pos: Vec, vel: Vec, size: Vec, e: Vec)
    requires WellFormed(m)
    ensures PathFrom(m, [pos], pos, pos, size)
    ensures Reflected(vel.x, ClampUnit(e.x), 0) == vel.x && Reflected(vel.y, ClampUnit(e.y), 0) == vel.y
  {
    hide TestBox;
  }

  lemma AheadStart(pos: Vec, vel: Vec, fraction: real)
    ensures Ahead(pos, vel, fraction, 0) == pos
  {
  }

  lemma AheadEnd(pos: Vec, vel: Vec, fraction: real, n: nat)
    requires fraction * n as real == 1.0
    ensures Ahead(pos, vel, fraction, n) == Add(pos, vel)
  {
  }

  /** For boxes no larger than a tile, a path that starts clear of solid points stays clear of them. */
  lemma PathStaysClear(m: TileMap, path: seq<Vec>, from: Vec, to: Vec, size: Vec, i: nat)
    requires WellFormed(m) && 0.0 <= size.x <= 32.0 && 0.0 <= size.y <= 32.0
    requires PathFrom(m, path, from, to, size) && !AnySolidPoint(m, from, size) && i < |path|
    ensures !AnySolidPoint(m, path[i], size)
  {
    hide TestBox, AnySolidPoint;
    CornersSuffice(m, from, size);
    CornersSuffice(m, path[i], size);
  }

  // ----- points

  /** CCollision::MovePoint. */
  method MovePoint(m: TileMap, pos0: Vec, vel0: Vec, elasticity: real) returns (pos: Vec, vel: Vec, bounces: nat)
    requires WellFormed(m)
    ensures pos == if CheckPoint(m, Add(pos0, vel0)) then pos0 else Add(pos0, vel0)
    ensures !CheckPoint(m, pos0) ==> !CheckPoint(m, pos)
    ensures !CheckPoint(m, Add(pos0, vel0)) ==> vel == vel0 && bounces == 0
    ensures CheckPoint(m, Add(pos0, vel0)) ==>
      var alongX, alongY := CheckPoint(m, Vec(pos0.x + vel0.x, pos0.y)), CheckPoint(m, Vec(pos0.x, pos0.y + vel0.y));
      && vel.x == (if alongX || !alongY then vel0.x * -elasticity else vel0.x)
      && vel.y == (if alongY || !alongX then vel0.y * -elasticity else vel0.y)
      && bounces == (if alongX then 1 else 0) + (if alongY then 1 else 0)
  {
    hide CheckPoint;
    bounces := 0;
    pos, vel := pos0, vel0;
    if CheckPoint(m, Add(pos, vel0)) {
      var affected := 0;
      if CheckPoint(m, Vec(pos.x + vel0.x, pos.y)) {
        vel := vel.(x := vel.x * -elasticity);
        bounces, affected := bounces + 1, affected + 1;
      }
      if CheckPoint(m, Vec(pos.x, pos.y + vel0.y)) {
        vel := vel.(y := vel.y * -elasticity);
        bounces, affected := bounces + 1, affected + 1;
      }
      if affected == 0 {
        vel := Vec(vel.x * -elasticity, vel.y * -elasticity);
      }
    } else {
      pos := Add(pos, vel0);
    }
  }

  // ----- lines

  /** The `i`-th of the places examined between two points. */
  function Sample(p0: Vec, p1: Vec, i: nat, end: nat): Vec
    requires end > 0
  {
    Mix(p0, p1, i as real / end as real)
  }

  /** The first place is where the line starts, and the last where it ends. */
  lemma SampleEnds(p0: Vec, p1: Vec, end: nat)
    requires end > 0
    ensures Sample(p0, p1, 0, end) == p0 && Sample(p0, p1, end, end) == p1
  {
    assert end as real / end as real == 1.0;
  }

  ghost predicate CloseSamples(p0: Vec, p1: Vec, end: nat)
    requires end > 0
  {
    forall i: nat :: i < end ==> Gap(Sample(p0, p1, i, end), Sample(p0, p1, i + 1, end)) < 1.0
  }

  lemma RoundOfRounded(x: int)
    ensures RoundToInt(x as real) == x
  {
  }

  /** CCollision::IntersectLine: the first solid sample, and the one before it. */
  method IntersectLine(m: TileMap, p0: Vec, p1: Vec, distance: real)
    returns (r: int, collision: Vec, before: Vec, ghost k: nat, ghost end: nat)
    requires WellFormed(m) && 0.0 <= distance && distance * distance == Gap(p0, p1)
    ensures end > 0 && CloseSamples(p0, p1, end) && end as real <= distance + 1.0 < (end + 1) as real
    ensures forall i: nat :: i < k && i <= end ==> !CheckPoint(m, Sample(p0, p1, i, end))
    ensures r == 0 <==> k == end + 1
    ensures r == 0 ==> collision == p1 && before == p1
    ensures r != 0 ==>
      && k <= end && collision == Sample(p0, p1, k, end) && CheckPoint(m, collision)
      && before == (if k == 0 then p0 else Sample(p0, p1, k - 1, end))
      && r == GetTile(m, RoundToInt(collision.x), RoundToInt(collision.y))
  {
    hide RoundToInt, GetTile, Sample, Gap, Truncate;
    SamplesAreClose(p0, p1, distance);
    end, k := Truncate(distance + 1.0), 0;
    var last := p0;
    var i := 0;
    while i <= Truncate(distance + 1.0)
      invariant 0 <= i <= end + 1 && k == i
      invariant last == if i == 0 then p0 else Sample(p0, p1, i - 1, end)
      invariant forall j: nat :: j < i ==> !CheckPoint(m, Sample(p0, p1, j, end))
    {
      var pos := Sample(p0, p1, i, Truncate(distance + 1.0));
      var ix, iy := RoundToInt(pos.x), RoundToInt(pos.y);
      RoundOfRounded(ix);
      RoundOfRounded(iy);
      if CheckPoint(m, Vec(ix as real, iy as real)) {
        return GetTile(m, RoundToInt(ix as real), RoundToInt(iy as real)), pos, last, k, end;
      }
      last := pos;
      i, k := i + 1, k + 1;
    }
    r, collision, before := 0, p1, p1;
  }

  lemma SamplesAreClose(p0: Vec, p1: Vec, distance: real)
    requires 0.0 <= distance && distance * distance == Gap(p0, p1)
    ensures Truncate(distance + 1.0) > 0 && CloseSamples(p0, p1, Truncate(distance + 1.0))
    ensures var end := Truncate(distance + 1.0); end as real <= distance + 1.0 < (end + 1) as real
  {
    var end := Truncate(distance + 1.0);
    var d, f := Vec(p1.x - p0.x, p1.y - p0.y), 1.0 / end as real;
    assert distance < end as real;
    StepIsShort(d, d, distance, end as real, f);
    hide Truncate, Gap;
    forall i: nat | i < end ensures Gap(Sample(p0, p1, i, end), Sample(p0, p1, i + 1, end)) < 1.0 {
      SampleStep(p0, p1, i, end, f);
      GapOfStep(Sample(p0, p1, i, end), Scale(d, f));
    }
  }

  lemma SampleStep(p0: Vec, p1: Vec, i: nat, end: nat, f: real)
    requires end > 0 && f == 1.0 / end as real
    ensures Sample(p0, p1, i + 1, end) == Add(Sample(p0, p1, i, end), Scale(Vec(p1.x - p0.x, p1.y - p0.y), f))
  {
    var a, b := i as real / end as real, (i + 1) as real / end as real;
    assert b == a + f;
    assert (p1.x - p0.x) * b == (p1.x - p0.x) * a + (p1.x - p0.x) * f;
    assert (p1.y - p0.y) * b == (p1.y - p0.y) * a + (p1.y - p0.y) * f;
  }

  lemma GapOfStep(a: Vec, step: Vec)
    ensures Gap(a, Add(a, step)) == Dot(step, step)
  {
  }

  // ----- tiles by index

  /** CCollision::GetPureMapIndex. */
  function PureMapIndex(m: TileMap, p: Vec): nat
    requires WellFormed(m) && m.TileMap?
  {
    Line(RoundToInt(p.y), m.height) * m.width + Line(RoundToInt(p.x), m.width)
  }

  /** CCollision::GetPos: the middle of a tile. */
  function PosOf(m: TileMap, index: int): Vec
    requires WellFormed(m) && m.TileMap?
  {
    if index < 0 then Vec(0.0, 0.0)
    else Vec((index % m.width * 32 + 16) as real, (index / m.width * 32 + 16) as real)
  }

  /** The middle of a tile lies in that tile. */
  lemma MapIndexOfPos(m: TileMap, index: nat)
    requires WellFormed(m) && m.TileMap? && index < m.width * m.height
    ensures PureMapIndex(m, PosOf(m, index)) == index
  {
    var c, r := index % m.width, index / m.width;
    assert index == r * m.width + c;
    DivBound(index, m.width);
    if r >= m.height {
      MulMonotone(m.height, r, m.width);
    }
    MiddleOfTile(c, m.width);
    MiddleOfTile(r, m.height);
  }

  lemma MiddleOfTile(c: nat, n: nat)
    requires c < n
    ensures Line(RoundToInt((c * 32 + 16) as real), n) == c
  {
    RoundOfRounded(c * 32 + 16);
  }
}
