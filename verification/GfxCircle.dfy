/**
 `drawCircle` and `fillCircle` of OLED_GFX.c: the midpoint circle algorithm,
 and the columns that fill a circle without drawing any of them twice.
 */
module GfxCircle {
  import opened GfxLine
  import opened Integers

  // ----- one octant -----------------------------------------------------------------------

  /** The decision value at `(x, y)`: the sign tells on which side of the circle the next midpoint is. */
  function Decision(r: int, x: int, y: int): int { Excess(r, x, y) + 2 * x + 1 - y }

  /** How far `(x, y)` is outside the circle, in squares. */
  function Excess(r: int, x: int, y: int): int { x * x + y * y - r * r }

  /** The height of the octant above `x`; the decision value is an `int16_t`. */
  function OctantY(r: int, x: nat): int {
    if x == 0 then r
    else
      var y := OctantY(r, x - 1);
      if Int16(Decision(r, x - 1, y)) >= 0 then y - 1 else y
  }

  /** The loop has not reached the diagonal before `x`. */
  predicate Within(r: int, x: nat) { forall i | 0 <= i < x :: i < OctantY(r, i) }

  /** The loop ends at `n`. */
  predicate Ends(r: int, n: nat) { Within(r, n) && n >= OctantY(r, n) }

  /** Whatever the decisions are, the octant ends at the diagonal. */
  lemma {:induction false} OctantBounds(r: int, x: nat)
    requires Within(r, x) && 0 <= r
    ensures 0 <= OctantY(r, x) <= r && x <= OctantY(r, x) + 1 && x <= r
  {
    hide Decision;
    if x > 0 {
      OctantBounds(r, x - 1);
      assert x - 1 < OctantY(r, x - 1);
    }
  }

  lemma FirstExcess(r: int)
    ensures Excess(r, 0, r) == 0
  {
  }

  lemma ExcessStep(r: int, x: int, y: int)
    ensures Excess(r, x + 1, y) == Excess(r, x, y) + 2 * x + 1
    ensures Excess(r, x + 1, y - 1) == Excess(r, x, y) + 2 * x + 1 - 2 * y + 1
  {
  }

  // ----- the radii for which the decisions are right --------------------------------------

  /** The decision value never leaves 16 bits for these radii, and for no others. */
  predicate GoodRadius(r: int) { r <= 16556 || r == 16642 || r == 16643 }

  /** For them every point of the octant is within half a pixel of the circle. */
  lemma {:induction false} OctantClose(r: int, x: nat)
    requires Within(r, x) && 0 <= r && GoodRadius(r)
    ensures var y := OctantY(r, x);
            && -y <= Excess(r, x, y) <= y && (x < y ==> Excess(r, x, y) < y)
            && Decision(r, x, y) >= -0x8000 && (x < y ==> Decision(r, x, y) <= 0x7FFF)
  {
    hide Excess, Decision, Int16;
    OctantBounds(r, x);
    var y := OctantY(r, x);
    DecisionBySquares(r, x, y);
    if x > 0 {
      var y0 := OctantY(r, x - 1);
      OctantBounds(r, x - 1);
      OctantClose(r, x - 1);
      assert x - 1 < y0;
      DecisionBySquares(r, x - 1, y0);
      ExcessStep(r, x - 1, y0);
      if y < y0 {
        DecisionStaysAbove(r, x, y);
      }
    } else {
      FirstExcess(r);
    }
    DecisionStaysBelow(r, x, y);
  }

  lemma DecisionBySquares(r: int, x: int, y: int)
    ensures Decision(r, x, y) == Excess(r, x, y) + 2 * x + 1 - y
    ensures Decision(r, x, y) == (x + 1) * (x + 1) + (y - 1) * y - r * r
  {
  }

  lemma DecisionStaysBelow(r: int, x: int, y: int)
    requires 0 <= x && 0 <= y <= r && GoodRadius(r)
    ensures x < y && Excess(r, x, y) < y ==> Decision(r, x, y) <= 0x7FFF
  {
    if x < y && x >= 0x4000 {
      SquareGrows(0x4000, x);
      SquareGrows(0x4000, y - 1);
      SquareGrows(r, 16643);
    }
  }

  lemma SquareGrows(a: int, b: int)
    requires 0 <= a
    ensures a <= b ==> a * a <= b * b
  {
    if a <= b {
      var d: nat := b - a;
      NonNegative(a, d);
      NonNegative(d, d);
      assert b * b == a * a + 2 * (a * d) + d * d;
    }
  }

  lemma NonNegative(a: nat, b: nat)
    ensures a * b >= 0
  {
  }

  /** After a step down to `y`, from a decision value that was not negative, it is not too small. */
  lemma DecisionStaysAbove(r: int, x: int, y: int)
    requires 0 <= x && 0 <= y < r && GoodRadius(r) && x * x + (y + 1) * y - r * r >= 0
    ensures x * x + (y + 1) * y - r * r + 2 * x + 1 - 2 * y >= -0x8000
  {
    if y <= 0x4000 {
    } else if y == r - 1 {
      FirstStepDown(r, x, x * x);
    } else if y == r - 2 {
      SecondStepDown(r, x, x * x);
    } else {
      LaterStepDown(r, x, y, x * x, (y + 1) * y, r * r);
    }
  }

  lemma FirstStepDown(r: int, x: int, xx: int)
    requires 0 <= x && xx == x * x && 16385 <= r && GoodRadius(r) && xx + r * (r - 1) - r * r >= 0
    ensures xx + r * (r - 1) - r * r + 2 * x + 1 - 2 * (r - 1) >= -0x8000
  {
    assert r * (r - 1) - r * r == -r;
    SquareGrows(x, 128);
    SquareGrows(x, 129);
    SquareGrows(129, x);
    SquareGrows(130, x);
  }

  lemma SecondStepDown(r: int, x: int, xx: int)
    requires 0 <= x && xx == x * x && 16385 <= r && GoodRadius(r) && xx + (r - 1) * (r - 2) - r * r >= 0
    ensures xx + (r - 1) * (r - 2) - r * r + 2 * x + 1 - 2 * (r - 2) >= -0x8000
  {
    assert (r - 1) * (r - 2) - r * r == 2 - 3 * r;
    SquareGrows(x, 221);
    SquareGrows(x, 223);
    SquareGrows(224, x);
  }

  lemma LaterStepDown(r: int, x: int, y: int, xx: int, yy: int, rr: int)
    requires 0 <= x && xx == x * x && yy == (y + 1) * y && rr == r * r
    requires 16385 <= r && GoodRadius(r) && 0 <= y <= r - 3 && xx + yy - rr >= 0
    ensures xx + yy - rr + 2 * x + 1 - 2 * y >= -0x8000
  {
    assert (r - 2) * (r - 3) == rr - 5 * r + 6;
    PronicGrows(y, r - 3);
    SquareGrows(x, 286);
  }

  lemma PronicGrows(a: int, b: int)
    requires 0 <= a <= b
    ensures (a + 1) * a <= (b + 1) * b
  {
    SquareGrows(a, b);
    assert (a + 1) * a == a * a + a && (b + 1) * b == b * b + b;
  }

  // ----- drawCircle -----------------------------------------------------------------------

  /** The pixels that belong to the octant point `(x, y)`. */
  function EightFold(c: Pixel, x: int, y: int): seq<Pixel> {
    [Pixel(c.x + x, c.y + y), Pixel(c.x - x, c.y + y), Pixel(c.x + x, c.y - y), Pixel(c.x - x, c.y - y),
     Pixel(c.x + y, c.y + x), Pixel(c.x - y, c.y + x), Pixel(c.x + y, c.y - x), Pixel(c.x - y, c.y - x)]
  }

  /** The pixels of a circle after `n` turns of the loop. */
  function CirclePixels(c: Pixel, r: int, n: nat): seq<Pixel> {
    if n == 0 then [Pixel(c.x, c.y + r), Pixel(c.x, c.y - r), Pixel(c.x + r, c.y), Pixel(c.x - r, c.y)]
    else CirclePixels(c, r, n - 1) + EightFold(c, n, OctantY(r, n))
  }

  /** Coordinates within `r` of the centre are `int16_t`s. */
  predicate Fits(c: Pixel, r: int) {
    InInt16(c.x - r) && InInt16(c.x + r) && InInt16(c.y - r) && InInt16(c.y + r)
  }

  /** The pixel that is written: its coordinates are passed as `int16_t`s. */
  function Stored(p: Pixel): Pixel { Pixel(Int16(p.x), Int16(p.y)) }

  function StoredPixels(ps: seq<Pixel>): seq<Pixel> { seq(|ps|, i requires 0 <= i < |ps| => Stored(ps[i])) }

  lemma StoredMore(ps: seq<Pixel>, qs: seq<Pixel>)
    ensures StoredPixels(ps + qs) == StoredPixels(ps) + StoredPixels(qs)
  {
  }

  /** What the loop variables hold at `(x, y)`. */
  predicate LoopState(r: int, x: int, y: int, f: int, ddF_x: int, ddF_y: int) {
    && ddF_x == Int16(2 * x + 1) && ddF_y == Int16(-2 * y)
    && f == Int16((x + 1) * (x + 1) + y * y - y - r * r)
  }

  /** The body of the loop that `drawCircle` and `fillCircleHelper` share. */
  method NextPoint(r: int, x: int, y: int, f: int, ddF_x: int, ddF_y: int)
    returns (x': int, y': int, f': int, ddF_x': int, ddF_y': int)
    requires 0 <= x < y <= r && y == OctantY(r, x) && Within(r, x) && LoopState(r, x, y, f, ddF_x, ddF_y)
    ensures x' == x + 1 && y' == OctantY(r, x') && Within(r, x') && 0 <= y' <= y
    ensures LoopState(r, x', y', f', ddF_x', ddF_y')
  {
    hide OctantY, Within, Decision, Int16;
    x', y', f', ddF_x', ddF_y' := x, y, f, ddF_x, ddF_y;
    ghost var d := Decision(r, x, y);
    DecisionValue(r, x, y);
    NextHeight(r, x, y);
    if f' >= 0 {
      y' := y' - 1;
      Int16Sum(-2 * y, 2);
      ddF_y' := Int16(ddF_y' + 2);
      Int16Sum(d, -2 * y');
      f' := Int16(f' + ddF_y');
      d := d - 2 * y';
    }
    x' := x' + 1;
    Int16Sum(2 * x + 1, 2);
    ddF_x' := Int16(ddF_x' + 2);
    Int16Sum(d, 2 * x' + 1);
    f' := Int16(f' + ddF_x');
    NextState(r, x, y);
  }

  lemma DecisionValue(r: int, x: int, y: int)
    ensures Decision(r, x, y) == (x + 1) * (x + 1) + y * y - y - r * r
  {
  }

  lemma NextHeight(r: int, x: int, y: int)
    requires 0 <= x < y && y == OctantY(r, x) && Within(r, x)
    ensures Within(r, x + 1) && OctantY(r, x + 1) == if Int16(Decision(r, x, y)) >= 0 then y - 1 else y
  {
    hide Decision;
  }

  lemma NextState(r: int, x: int, y: int)
    ensures (x + 2) * (x + 2) == (x + 1) * (x + 1) + 2 * x + 3
    ensures (y - 1) * (y - 1) - (y - 1) == y * y - y - 2 * (y - 1)
  {
  }

  /** `drawCircle`. */
  method DrawCircle(c: Pixel, r: int) returns (pixels: seq<Pixel>, n: nat)
    requires InInt16(r)
    ensures Ends(r, n) && pixels == StoredPixels(CirclePixels(c, r, n))
  {
    hide OctantY, Within, LoopState, EightFold, Int16;
    var f, ddF_x, ddF_y := Int16(1 - r), 1, Int16(-2 * r);
    var x, y := 0, r;
    pixels := StoredPixels([Pixel(c.x, c.y + r), Pixel(c.x, c.y - r), Pixel(c.x + r, c.y), Pixel(c.x - r, c.y)]);
    FirstState(r);
    while x < y
      invariant 0 <= x && y == OctantY(r, x) && Within(r, x) && y <= r && (0 < r ==> 0 <= y)
      invariant LoopState(r, x, y, f, ddF_x, ddF_y)
      invariant pixels == StoredPixels(CirclePixels(c, r, x))
      decreases r - x
    {
      x, y, f, ddF_x, ddF_y := NextPoint(r, x, y, f, ddF_x, ddF_y);
      pixels := pixels + StoredPixels(EightFold(c, x, y));
      StoredMore(CirclePixels(c, r, x - 1), EightFold(c, x, y));
    }
    n := x;
  }

  lemma FirstState(r: int)
    ensures LoopState(r, 0, r, Int16(1 - r), 1, Int16(-2 * r)) && OctantY(r, 0) == r && Within(r, 0)
  {
  }

  // ----- fillCircle -----------------------------------------------------------------------

  /** A call of `writeFastVLine`. */
  datatype Column = Column(x: int, y: int, h: int)

  function StoredColumn(col: Column): Column { Column(Int16(col.x), Int16(col.y), Int16(col.h)) }

  function StoredColumns(cs: seq<Column>): seq<Column> { seq(|cs|, i requires 0 <= i < |cs| => StoredColumn(cs[i])) }

  lemma StoredColumnsMore(cs: seq<Column>, ds: seq<Column>)
    ensures StoredColumns(cs + ds) == StoredColumns(cs) + StoredColumns(ds)
  {
  }

  /** The columns at distance `d` from the centre, `half` pixels up and down. */
  function Columns(c: Pixel, d: int, half: int, right: bool, left: bool, delta: int): seq<Column> {
    (if right then [Column(c.x + d, c.y - half, 2 * half + delta)] else [])
    + (if left then [Column(c.x - d, c.y - half, 2 * half + delta)] else [])
  }

  /** The columns drawn in the turn that arrives at `x`. */
  function TurnColumns(c: Pixel, r: int, x: nat, right: bool, left: bool, delta: int): seq<Column>
    requires x > 0
  {
    var y, py := OctantY(r, x), OctantY(r, x - 1);
    (if x < y + 1 then Columns(c, x, y, right, left, delta) else [])
    + (if y != py then Columns(c, py, x - 1, right, left, delta) else [])
  }

  function FillColumns(c: Pixel, r: int, n: nat, right: bool, left: bool, delta: int): seq<Column> {
    if n == 0 then [] else FillColumns(c, r, n - 1, right, left, delta) + TurnColumns(c, r, n, right, left, delta)
  }

  /** `fillCircleHelper`; `right` and `left` are the bits of `corners`. */
  method FillCircleHelper(c: Pixel, r: int, right: bool, left: bool, delta: int) returns (columns: seq<Column>, n: nat)
    requires InInt16(r) && InInt16(delta)
    ensures Ends(r, n) && columns == StoredColumns(FillColumns(c, r, n, right, left, Int16(delta + 1)))
  {
    hide OctantY, Within, LoopState, Columns, Int16;
    var f, ddF_x, ddF_y := Int16(1 - r), 1, Int16(-2 * r);
    var x, y, px, py := 0, r, 0, r;
    var delta' := Int16(delta + 1);
    columns := [];
    FirstState(r);
    while x < y
      invariant 0 <= x && y == OctantY(r, x) && Within(r, x) && y <= r && (0 < r ==> 0 <= y)
      invariant LoopState(r, x, y, f, ddF_x, ddF_y) && px == x && py == y
      invariant columns == StoredColumns(FillColumns(c, r, x, right, left, delta'))
      decreases r - x
    {
      ghost var before := columns;
      x, y, f, ddF_x, ddF_y := NextPoint(r, x, y, f, ddF_x, ddF_y);
      if x < y + 1 {
        columns := columns + StoredColumns(Columns(c, x, y, right, left, delta'));
      }
      if y != py {
        columns := columns + StoredColumns(Columns(c, py, px, right, left, delta'));
        py := y;
      }
      px := x;
      TurnStored(c, r, x, right, left, delta');
      StoredColumnsMore(FillColumns(c, r, x - 1, right, left, delta'), TurnColumns(c, r, x, right, left, delta'));
      assert columns == before + StoredColumns(TurnColumns(c, r, x, right, left, delta'));
    }
    n := x;
  }

  lemma TurnStored(c: Pixel, r: int, x: nat, right: bool, left: bool, delta: int)
    requires x > 0
    ensures var y, py := OctantY(r, x), OctantY(r, x - 1);
            StoredColumns(TurnColumns(c, r, x, right, left, delta))
            == (if x < y + 1 then StoredColumns(Columns(c, x, y, right, left, delta)) else [])
               + (if y != py then StoredColumns(Columns(c, py, x - 1, right, left, delta)) else [])
  {
    hide OctantY, Columns, StoredColumns;
    var y, py := OctantY(r, x), OctantY(r, x - 1);
    StoredColumnsMore(if x < y + 1 then Columns(c, x, y, right, left, delta) else [],
                      if y != py then Columns(c, py, x - 1, right, left, delta) else []);
    NoColumns();
  }

  lemma NoColumns()
    ensures StoredColumns([]) == []
  {
  }

  /** `fillCircle`. */
  method FillCircle(c: Pixel, r: int) returns (columns: seq<Column>, n: nat)
    requires InInt16(r)
    ensures Ends(r, n) && columns == StoredColumns(Filled(c, r, n))
  {
    columns, n := FillCircleHelper(c, r, true, true, 0);
    columns := [StoredColumn(Column(c.x, c.y - r, 2 * r + 1))] + columns;
    StoredColumnsMore([Column(c.x, c.y - r, 2 * r + 1)], FillColumns(c, r, n, true, true, 1));
  }

  /** The columns made longer by `k`, downwards. */
  function Stretched(cs: seq<Column>, k: int): seq<Column> {
    seq(|cs|, i requires 0 <= i < |cs| => Column(cs[i].x, cs[i].y, cs[i].h + k))
  }

  lemma StretchedMore(cs: seq<Column>, ds: seq<Column>, k: int)
    ensures Stretched(cs + ds, k) == Stretched(cs, k) + Stretched(ds, k)
  {
  }

  lemma TurnStretched(c: Pixel, r: int, x: nat, right: bool, left: bool, k: int)
    requires x > 0
    ensures TurnColumns(c, r, x, right, left, 1 + k) == Stretched(TurnColumns(c, r, x, right, left, 1), k)
  {
    hide OctantY;
  }

  /** The offset pulls the halves of the circle apart: every column is that much longer than without it. */
  lemma {:induction false} FillStretched(c: Pixel, r: int, n: nat, right: bool, left: bool, k: int)
    ensures FillColumns(c, r, n, right, left, 1 + k) == Stretched(FillColumns(c, r, n, right, left, 1), k)
  {
    hide TurnColumns;
    if n > 0 {
      FillStretched(c, r, n - 1, right, left, k);
      TurnStretched(c, r, n, right, left, k);
      StretchedMore(FillColumns(c, r, n - 1, right, left, 1), TurnColumns(c, r, n, right, left, 1), k);
    }
  }

  function Filled(c: Pixel, r: int, n: nat): seq<Column> {
    [Column(c.x, c.y - r, 2 * r + 1)] + FillColumns(c, r, n, true, true, 1)
  }

  // ----- every column once ----------------------------------------------------------------

  /** How many of the columns are at `x`. */
  function Count(cs: seq<Column>, x: int): nat {
    if cs == [] then 0 else (if cs[0].x == x then 1 else 0) + Count(cs[1..], x)
  }

  lemma {:induction false} CountConcat(cs: seq<Column>, ds: seq<Column>, x: int)
    ensures Count(cs + ds, x) == Count(cs, x) + Count(ds, x)
  {
    if cs == [] {
      assert cs + ds == ds;
    } else {
      assert (cs + ds)[1..] == cs[1..] + ds;
      CountConcat(cs[1..], ds, x);
    }
  }

  lemma CountColumns(c: Pixel, d: int, half: int, x: int)
    requires d > 0
    ensures Count(Columns(c, d, half, true, true, 1), x) == One(Abs(x - c.x) == d)
  {
    var cs := Columns(c, d, half, true, true, 1);
    var a, b := Column(c.x + d, c.y - half, 2 * half + 1), Column(c.x - d, c.y - half, 2 * half + 1);
    assert cs == [a, b] && cs[1..] == [b] && [b][1..] == [];
    assert Count([b], x) == One(c.x - d == x);
  }

  lemma CountTurn(c: Pixel, r: int, n: nat, x: int)
    requires 0 < n && Within(r, n) && 0 <= r
    ensures var y, py := OctantY(r, n), OctantY(r, n - 1);
            Count(TurnColumns(c, r, n, true, true, 1), x)
            == One(n <= y && Abs(x - c.x) == n) + One(y != py && Abs(x - c.x) == py)
  {
    var y, py := OctantY(r, n), OctantY(r, n - 1);
    OctantBounds(r, n - 1);
    assert 0 < py;
    hide Columns, OctantY, Within;
    CountConcat(if n < y + 1 then Columns(c, n, y, true, true, 1) else [],
                if y != py then Columns(c, py, n - 1, true, true, 1) else [], x);
    CountColumns(c, n, y, x);
    CountColumns(c, py, n - 1, x);
  }

  /** After `n` turns the columns from the centre up to `n` and those beyond the octant are drawn, once. */
  lemma {:induction false} CountFill(c: Pixel, r: int, n: nat, x: int)
    requires Within(r, n) && 0 <= r
    ensures var y, d := OctantY(r, n), Abs(x - c.x);
            Count(FillColumns(c, r, n, true, true, 1), x) == One(0 < d <= Min(n, y) || y < d <= r)
  {
    hide OctantY, TurnColumns, Count, FillColumns, Excess, Within;
    FirstState(r);
    if n == 0 {
      FillNothing(c, r, x);
    } else {
      TurnHeight(r, n);
      CountFill(c, r, n - 1, x);
      CountTurn(c, r, n, x);
      OctantBounds(r, n);
      OctantBounds(r, n - 1);
      FillUnfold(c, r, n);
      CountConcat(FillColumns(c, r, n - 1, true, true, 1), TurnColumns(c, r, n, true, true, 1), x);
    }
  }

  lemma FillNothing(c: Pixel, r: int, x: int)
    ensures Count(FillColumns(c, r, 0, true, true, 1), x) == 0
  {
  }

  lemma FillUnfold(c: Pixel, r: int, n: nat)
    requires n > 0
    ensures FillColumns(c, r, n, true, true, 1)
         == FillColumns(c, r, n - 1, true, true, 1) + TurnColumns(c, r, n, true, true, 1)
  {
  }

  lemma TurnHeight(r: int, n: nat)
    requires 0 < n && Within(r, n)
    ensures Within(r, n - 1)
    ensures OctantY(r, n - 1) - 1 <= OctantY(r, n) <= OctantY(r, n - 1) && n - 1 < OctantY(r, n - 1)
  {
  }

  /** `fillCircle` draws each column of the circle exactly once, and no other. */
  lemma FillOnce(c: Pixel, r: int, n: nat, x: int)
    requires Ends(r, n) && 0 <= r
    ensures Count(Filled(c, r, n), x) == One(c.x - r <= x <= c.x + r)
  {
    CountFill(c, r, n, x);
    CountConcat([Column(c.x, c.y - r, 2 * r + 1)], FillColumns(c, r, n, true, true, 1), x);
    OctantBounds(r, n);
    hide OctantY, FillColumns;
  }

  /** Stored in 16 bits, columns that are not 65536 apart stay different. */
  lemma {:induction false} CountStored(cs: seq<Column>, lo: int, x: int)
    requires (forall i | 0 <= i < |cs| :: lo <= cs[i].x < lo + 0x1_0000) && lo <= x < lo + 0x1_0000
    ensures Count(StoredColumns(cs), Int16(x)) == Count(cs, x)
  {
    hide Int16;
    if cs != [] {
      CountStored(cs[1..], lo, x);
      assert StoredColumns(cs)[1..] == StoredColumns(cs[1..]);
      SameStored(cs[0].x, x);
    }
  }

  lemma SameStored(a: int, b: int)
    requires -0x1_0000 < a - b < 0x1_0000
    ensures Int16(a) == Int16(b) <==> a == b
  {
  }

  /** So `fillCircle` draws no column twice even where the circle leaves the range of coordinates. */
  lemma FillOnceStored(c: Pixel, r: int, n: nat, x: int)
    requires Ends(r, n) && 0 <= r <= 0x7FFF && c.x - r <= x <= c.x + r
    ensures Count(StoredColumns(Filled(c, r, n)), Int16(x)) == 1
  {
    hide Int16, Filled, StoredColumns, Count;
    FillOnce(c, r, n, x);
    ColumnsNear(c, r, n);
    CountStored(Filled(c, r, n), c.x - r, x);
  }

  lemma ColumnsNear(c: Pixel, r: int, n: nat)
    requires Ends(r, n) && 0 <= r
    ensures forall i | 0 <= i < |Filled(c, r, n)| :: c.x - r <= Filled(c, r, n)[i].x <= c.x + r
  {
    hide Filled, Count;
    var cs := Filled(c, r, n);
    forall i | 0 <= i < |cs| ensures c.x - r <= cs[i].x <= c.x + r {
      FillOnce(c, r, n, cs[i].x);
      Counted(cs, i);
    }
  }

  lemma {:induction false} Counted(cs: seq<Column>, i: nat)
    requires i < |cs|
    ensures Count(cs, cs[i].x) > 0
  {
    if i > 0 {
      assert cs[1..][i - 1] == cs[i];
      Counted(cs[1..], i - 1);
    }
  }

  /** Where all coordinates are `int16_t`s, what is drawn is the circle itself. */
  lemma CircleStored(c: Pixel, r: int, n: nat)
    requires Fits(c, r) && 0 <= r && Within(r, n)
    ensures StoredPixels(CirclePixels(c, r, n)) == CirclePixels(c, r, n)
  {
    hide Int16, CirclePixels, Within;
    var ps := CirclePixels(c, r, n);
    forall i | 0 <= i < |ps| ensures Stored(ps[i]) == ps[i] {
      PixelNear(c, r, n, ps[i]);
    }
  }

  lemma {:induction false} PixelNear(c: Pixel, r: int, n: nat, p: Pixel)
    requires 0 <= r && Within(r, n) && p in CirclePixels(c, r, n)
    ensures Abs(p.x - c.x) <= r && Abs(p.y - c.y) <= r
  {
    hide CirclePixels, OctantY, Within, Excess;
    PixelsUnfold(c, r, n, p);
    if n > 0 && p in CirclePixels(c, r, n - 1) {
      TurnHeight(r, n);
      PixelNear(c, r, n - 1, p);
    } else {
      OctantBounds(r, n);
    }
  }

  /** The heights of the columns are `int16_t`s exactly up to the radius 16383. */
  lemma HeightsFit(c: Pixel, r: int, n: nat)
    requires Ends(r, n) && 0 <= r <= 0x7FFF
    ensures (forall i | 0 <= i < |Filled(c, r, n)| :: InInt16(Filled(c, r, n)[i].h)) <==> r <= 0x3FFF
  {
    hide FillColumns;
    FillHeights(c, r, n);
    assert Filled(c, r, n)[0].h == 2 * r + 1;
  }

  lemma {:induction false} FillHeights(c: Pixel, r: int, n: nat)
    requires Within(r, n) && 0 <= r
    ensures forall i | 0 <= i < |FillColumns(c, r, n, true, true, 1)| ::
              1 <= FillColumns(c, r, n, true, true, 1)[i].h <= 2 * r + 1
  {
    hide OctantY, Within, FillColumns;
    FillStart(c, r);
    if n > 0 {
      TurnHeight(r, n);
      OctantBounds(r, n);
      OctantBounds(r, n - 1);
      FillHeights(c, r, n - 1);
      FillUnfold(c, r, n);
    }
  }

  lemma FillStart(c: Pixel, r: int)
    ensures FillColumns(c, r, 0, true, true, 1) == []
  {
  }

  // ----- the outline is filled ------------------------------------------------------------

  predicate Covers(col: Column, p: Pixel) { col.x == p.x && col.y <= p.y < col.y + col.h }

  predicate Covered(cs: seq<Column>, p: Pixel) { exists k :: 0 <= k < |cs| && Covers(cs[k], p) }

  /** The pixels at distance `d` and at most `half` above or below the centre. */
  ghost predicate AreCovered(cs: seq<Column>, c: Pixel, d: int, half: int) {
    forall p: Pixel | Abs(p.x - c.x) == d && Abs(p.y - c.y) <= half :: Covered(cs, p)
  }

  lemma ColumnsCover(c: Pixel, d: int, half: int)
    ensures AreCovered(Columns(c, d, half, true, true, 1), c, d, half)
  {
    var cs := Columns(c, d, half, true, true, 1);
    forall p: Pixel | Abs(p.x - c.x) == d && Abs(p.y - c.y) <= half ensures Covered(cs, p) {
      assert Covers(cs[if p.x == c.x + d then 0 else 1], p);
    }
  }

  lemma CoveredInside(a: seq<Column>, cs: seq<Column>, b: seq<Column>, c: Pixel, d: int, half: int)
    requires AreCovered(cs, c, d, half)
    ensures AreCovered(a + cs + b, c, d, half)
  {
    forall p: Pixel | Abs(p.x - c.x) == d && Abs(p.y - c.y) <= half ensures Covered(a + cs + b, p) {
      var k :| 0 <= k < |cs| && Covers(cs[k], p);
      assert (a + cs + b)[|a| + k] == cs[k];
    }
  }

  /** The two kinds of columns of turn `i` are among those of `n` turns. */
  lemma {:induction false} TurnCovers(c: Pixel, r: int, n: nat, i: nat)
    requires 0 < i <= n
    ensures i <= OctantY(r, i) ==> AreCovered(Filled(c, r, n), c, i, OctantY(r, i))
    ensures OctantY(r, i) != OctantY(r, i - 1) ==> AreCovered(Filled(c, r, n), c, OctantY(r, i - 1), i - 1)
    decreases n
  {
    hide AreCovered, OctantY, FillColumns, TurnColumns;
    if i < n {
      TurnCovers(c, r, n - 1, i);
      FillUnfold(c, r, n);
      var rest := TurnColumns(c, r, n, true, true, 1);
      assert Filled(c, r, n) == [] + Filled(c, r, n - 1) + rest;
      hide Filled;
      if i <= OctantY(r, i) {
        CoveredInside([], Filled(c, r, n - 1), rest, c, i, OctantY(r, i));
      }
      if OctantY(r, i) != OctantY(r, i - 1) {
        CoveredInside([], Filled(c, r, n - 1), rest, c, OctantY(r, i - 1), i - 1);
      }
    } else {
      LastTurnCovers(c, r, n);
    }
  }

  lemma LastTurnCovers(c: Pixel, r: int, n: nat)
    requires 0 < n
    ensures n <= OctantY(r, n) ==> AreCovered(Filled(c, r, n), c, n, OctantY(r, n))
    ensures OctantY(r, n) != OctantY(r, n - 1) ==> AreCovered(Filled(c, r, n), c, OctantY(r, n - 1), n - 1)
  {
    hide AreCovered, OctantY, Filled, FillColumns, Columns;
    var y, py := OctantY(r, n), OctantY(r, n - 1);
    var before := [Column(c.x, c.y - r, 2 * r + 1)] + FillColumns(c, r, n - 1, true, true, 1);
    var first := if n < y + 1 then Columns(c, n, y, true, true, 1) else [];
    var second := if y != py then Columns(c, py, n - 1, true, true, 1) else [];
    FilledSplit(c, r, n);
    assert before + first + second == (before + first) + second + [];
    if n <= y {
      ColumnsCover(c, n, y);
      CoveredInside(before, first, second, c, n, y);
    }
    if y != py {
      ColumnsCover(c, py, n - 1);
      CoveredInside(before + first, second, [], c, py, n - 1);
    }
  }

  lemma FilledSplit(c: Pixel, r: int, n: nat)
    requires 0 < n
    ensures var y, py := OctantY(r, n), OctantY(r, n - 1);
            Filled(c, r, n) == [Column(c.x, c.y - r, 2 * r + 1)] + FillColumns(c, r, n - 1, true, true, 1)
              + (if n < y + 1 then Columns(c, n, y, true, true, 1) else [])
              + (if y != py then Columns(c, py, n - 1, true, true, 1) else [])
  {
    hide OctantY, Columns;
    FillUnfold(c, r, n);
  }

  /** The octant falls. */
  lemma {:induction false} OctantFalls(r: int, i: nat, j: nat)
    requires i <= j
    ensures OctantY(r, j) <= OctantY(r, i)
  {
    hide Decision, Int16;
    if i < j {
      OctantFalls(r, i, j - 1);
    }
  }

  /** The turn in which the height `OctantY(r, i)` is left. */
  lemma {:induction false} LeavesHeight(r: int, i: nat, n: nat) returns (j: nat)
    requires i <= n && OctantY(r, n) < OctantY(r, i)
    ensures i < j <= n && OctantY(r, j - 1) == OctantY(r, i) && OctantY(r, j) != OctantY(r, i)
    decreases n
  {
    hide Decision, Int16;
    OctantFalls(r, i, n - 1);
    if OctantY(r, n - 1) == OctantY(r, i) {
      j := n;
    } else {
      j := LeavesHeight(r, i, n - 1);
    }
  }

  /** Above and below the centre, and beside it. */
  lemma CentreCovered(c: Pixel, r: int, n: nat)
    ensures AreCovered(Filled(c, r, n), c, 0, r)
  {
    forall p: Pixel | Abs(p.x - c.x) == 0 && Abs(p.y - c.y) <= r ensures Covered(Filled(c, r, n), p) {
      assert Covers(Filled(c, r, n)[0], p);
    }
  }

  /** The octant point `i` and its reflections lie in columns that are filled. */
  lemma PointCovered(c: Pixel, r: int, n: nat, i: nat)
    requires Ends(r, n) && 0 <= r && i <= n
    ensures AreCovered(Filled(c, r, n), c, i, OctantY(r, i))
  {
    hide AreCovered, Filled, Excess;
    OctantBounds(r, i);
    OctantBounds(r, n);
    if i == 0 {
      CentreCovered(c, r, n);
    } else {
      TurnCovers(c, r, n, i);
      TurnHeight(r, i);
    }
  }

  /** The octant point reflected at the diagonal, too. */
  lemma ReflectionCovered(c: Pixel, r: int, n: nat, i: nat)
    requires Ends(r, n) && 0 <= r && i <= n
    ensures exists half :: i <= half && AreCovered(Filled(c, r, n), c, OctantY(r, i), half)
  {
    hide AreCovered, Filled, Excess;
    var y := OctantY(r, n);
    OctantBounds(r, n);
    OctantFalls(r, i, n);
    if y < OctantY(r, i) {
      var j := LeavesHeight(r, i, n);
      TurnCovers(c, r, n, j);
      assert i <= j - 1 && AreCovered(Filled(c, r, n), c, OctantY(r, i), j - 1);
    } else if y == 0 {
      CentreCovered(c, r, n);
      LowOctant(r, n);
      assert i <= r && AreCovered(Filled(c, r, n), c, OctantY(r, i), r);
    } else {
      TurnCovers(c, r, n, y);
      LastHeight(r, n);
      assert i <= OctantY(r, y) && AreCovered(Filled(c, r, n), c, OctantY(r, i), OctantY(r, y));
    }
  }

  lemma LowOctant(r: int, n: nat)
    requires Ends(r, n) && 0 <= r && OctantY(r, n) == 0
    ensures n <= r
  {
    OctantBounds(r, n);
    if n == 1 {
      TurnHeight(r, 1);
    }
  }

  /** The column where the octant meets the diagonal is high enough. */
  lemma LastHeight(r: int, n: nat)
    requires Ends(r, n) && 0 <= r
    ensures var y := OctantY(r, n); y <= n <= y + 1 && n <= OctantY(r, y) && y <= OctantY(r, y)
  {
    OctantBounds(r, n);
    OctantFalls(r, OctantY(r, n), n);
    if OctantY(r, n) < n {
      TurnHeight(r, n);
    }
  }

  /** Every pixel that `drawCircle` plots is in a column that `fillCircle` draws. */
  lemma {:induction false} OutlineFilled(c: Pixel, r: int, n: nat, k: nat, p: Pixel)
    requires Ends(r, n) && Within(r, k) && 0 <= r && k <= n && p in CirclePixels(c, r, k)
    ensures Covered(Filled(c, r, n), p)
  {
    hide Filled, Covered, Excess, Within, Ends, CirclePixels, OctantY;
    PixelsUnfold(c, r, k, p);
    if k > 0 && p in CirclePixels(c, r, k - 1) {
      TurnHeight(r, k);
      OutlineFilled(c, r, n, k - 1, p);
    } else {
      PointCovered(c, r, n, k);
      ReflectionCovered(c, r, n, k);
      var half :| k <= half && AreCovered(Filled(c, r, n), c, OctantY(r, k), half);
    }
  }

  lemma PixelsUnfold(c: Pixel, r: int, k: nat, p: Pixel)
    requires p in CirclePixels(c, r, k) && 0 <= r && Within(r, k)
    ensures (k > 0 && p in CirclePixels(c, r, k - 1)) || AtOctant(c, p, k, OctantY(r, k))
  {
    hide OctantY, Within, Excess, EightFold, AtOctant;
    OctantBounds(r, k);
    if k == 0 {
      FirstState(r);
      FourPixels(c, r, p);
    } else if p !in CirclePixels(c, r, k - 1) {
      assert p in EightFold(c, k, OctantY(r, k));
      EightFoldAt(c, k, OctantY(r, k), p);
    }
  }

  lemma FourPixels(c: Pixel, r: int, p: Pixel)
    requires p in CirclePixels(c, r, 0) && 0 <= r
    ensures AtOctant(c, p, 0, r)
  {
  }

  lemma EightFoldAt(c: Pixel, x: int, y: int, p: Pixel)
    requires p in EightFold(c, x, y) && 0 <= x && 0 <= y
    ensures AtOctant(c, p, x, y)
  {
  }

  /** `p` is one of the reflections of the octant point `(x, y)`. */
  predicate AtOctant(c: Pixel, p: Pixel, x: int, y: int) {
    || (Abs(p.x - c.x) == x && Abs(p.y - c.y) == y)
    || (Abs(p.x - c.x) == y && Abs(p.y - c.y) == x)
  }

  /** `p` is within half a pixel of the circle. */
  predicate NearCircle(c: Pixel, r: int, p: Pixel) {
    Abs(Excess(r, p.x - c.x, p.y - c.y)) <= Max(Abs(p.x - c.x), Abs(p.y - c.y))
  }

  /** Every pixel of the circle is within half a pixel of it. */
  lemma {:induction false} CircleClose(c: Pixel, r: int, n: nat, p: Pixel)
    requires 0 <= r && GoodRadius(r) && Within(r, n) && p in CirclePixels(c, r, n)
    ensures NearCircle(c, r, p)
  {
    hide Excess, CirclePixels, OctantY, Within;
    PixelsUnfold(c, r, n, p);
    if n > 0 && p in CirclePixels(c, r, n - 1) {
      TurnHeight(r, n);
      CircleClose(c, r, n - 1, p);
    } else {
      OctantBounds(r, n);
      OctantClose(r, n);
      ExcessReflected(c, p, r, n, OctantY(r, n));
    }
  }

  /**
   All pixels of `drawCircle` are within half a pixel of the circle exactly up
   to the radius 16556, and for two larger radii.
   */
  lemma RadiusExact(c: Pixel, r: int, n: nat)
    requires Ends(r, n) && 0 <= r <= 0x7FFF
    ensures (forall p | p in CirclePixels(c, r, n) :: NearCircle(c, r, p)) <==> GoodRadius(r)
  {
    hide Excess, CirclePixels, OctantY, Within;
    if GoodRadius(r) {
      forall p | p in CirclePixels(c, r, n) ensures NearCircle(c, r, p) {
        CircleClose(c, r, n, p);
      }
    } else {
      var k := BadStep(r);
      var p := Pixel(c.x + k, c.y + r - 2);
      EndBehind(r, k, n);
      CircleHas(c, r, n, k, p);
    }
  }

  lemma EndBehind(r: int, k: nat, n: nat)
    requires Ends(r, n) && Within(r, k)
    ensures k <= n
  {
    hide OctantY;
  }

  /** For a radius that is not good the second decision wraps around: a step down takes the octant off the circle. */
  lemma BadStep(r: int) returns (k: nat)
    requires 0 <= r <= 0x7FFF && !GoodRadius(r)
    ensures Within(r, k) && OctantY(r, k) == r - 2 && k <= r - 2
    ensures Excess(r, k, r - 2) < -(r - 2)
  {
    hide Excess, Decision, Int16, OctantY, Within;
    var m := RootUp(r);
    FlatTop(r, m, m - 1);
    NextHeight(r, m - 1, r);
    FirstDecisions(r, m);
    NextHeight(r, m, r - 1);
    k := m + 1;
  }

  /** The square root, rounded up. */
  lemma RootUp(r: int) returns (m: nat)
    requires 0 < r
    ensures 1 <= m && (m - 1) * (m - 1) < r <= m * m
  {
    m := 1;
    while m * m < r
      invariant 1 <= m && (m - 1) * (m - 1) < r
      decreases r - m
    {
      Below(m);
      m := m + 1;
    }
  }

  lemma Below(m: nat)
    requires m >= 1
    ensures m <= m * m
  {
  }

  /** Until the square of `x` exceeds the radius, the octant is flat. */
  lemma {:induction false} FlatTop(r: int, m: nat, x: nat)
    requires x < m && (m - 1) * (m - 1) < r <= 0x7FFF
    ensures OctantY(r, x) == r && Within(r, x) && x < r
  {
    hide Decision, Int16;
    SquareGrows(x, m - 1);
    if x > 0 {
      Below(x);
      FlatTop(r, m, x - 1);
      DecisionBySquares(r, x - 1, r);
      assert (r - 1) * r - r * r == -r;
      NextHeight(r, x - 1, r);
    } else {
      FirstState(r);
    }
  }

  /** The first decision that is not negative, and the next one, which should be negative. */
  lemma FirstDecisions(r: int, m: nat)
    requires 0 <= r <= 0x7FFF && !GoodRadius(r) && 1 <= m && (m - 1) * (m - 1) < r <= m * m
    ensures m < r - 1 && Int16(Decision(r, m - 1, r)) >= 0
    ensures Int16(Decision(r, m, r - 1)) >= 0
    ensures Excess(r, m + 1, r - 2) < -(r - 2) && m + 1 <= r - 2
  {
    hide Int16;
    var mm := m * m;
    assert (m - 1) * (m - 1) == mm - 2 * m + 1 && (m + 1) * (m + 1) == mm + 2 * m + 1;
    assert (r - 1) * (r - 1) == r * r - 2 * r + 1 && (r - 2) * (r - 2) == r * r - 4 * r + 4;
    SquareGrows(m, 128);
    SquareGrows(182, m - 1);
    SquareGrows(129, m - 1);
    SquareGrows(130, m - 1);
    SteepDrop(m);
    WrapsUp(mm + 2 * m + 3 - 3 * r);
  }

  lemma SteepDrop(m: nat)
    ensures m >= 131 ==> m * m >= 4 * m + 16384
  {
    if m >= 131 {
      SquareGrows(127, m - 4);
      assert m * m == (m - 4) * (m - 4) + 8 * m - 16;
    }
  }

  lemma WrapsUp(v: int)
    ensures -0x1_0000 <= v < -0x8000 ==> Int16(v) == v + 0x1_0000
  {
  }

  lemma ExcessReflected(c: Pixel, p: Pixel, r: int, x: int, y: int)
    requires AtOctant(c, p, x, y)
    ensures Excess(r, p.x - c.x, p.y - c.y) == Excess(r, x, y)
  {
    Square(p.x - c.x);
    Square(p.y - c.y);
  }

  lemma Square(v: int)
    ensures Abs(v) * Abs(v) == v * v
  {
  }

  /** Both functions make the same number of turns. */
  lemma EndsOnce(r: int, m: nat, n: nat)
    requires Ends(r, m) && Ends(r, n)
    ensures m == n
  {
  }

  /** All reflections of an octant point are plotted. */
  lemma {:induction false} CircleHas(c: Pixel, r: int, n: nat, i: nat, p: Pixel)
    requires i <= n && AtOctant(c, p, i, OctantY(r, i)) && 0 <= OctantY(r, i)
    ensures p in CirclePixels(c, r, n)
    decreases n
  {
    if i < n {
      CircleHas(c, r, n - 1, i, p);
    } else if i == 0 {
      assert p in CirclePixels(c, r, 0);
    } else {
      hide OctantY;
      InEightFold(c, p, i, OctantY(r, i));
    }
  }

  lemma InEightFold(c: Pixel, p: Pixel, x: int, y: int)
    requires AtOctant(c, p, x, y)
    ensures p in EightFold(c, x, y)
  {
    var e := EightFold(c, x, y);
    var i := (if p.y >= c.y then 0 else 2) + if p.x >= c.x then 0 else 1;
    assert e[i] == p || e[4 + i] == p;
  }

  /** Each column that `fillCircle` draws ends, above and below, at pixels that `drawCircle` plots. */
  lemma {:induction false} ColumnsEndOnOutline(c: Pixel, r: int, n: nat, k: nat, col: Column)
    requires Within(r, n) && 0 <= r && k <= n && col in Filled(c, r, k)
    ensures Pixel(col.x, col.y) in CirclePixels(c, r, n) && Pixel(col.x, col.y + col.h - 1) in CirclePixels(c, r, n)
  {
    hide CirclePixels, Excess, OctantY, Within, FillColumns;
    FirstState(r);
    if k == 0 {
      CentreColumn(c, r, col);
      CircleHas(c, r, n, 0, Pixel(col.x, col.y));
      CircleHas(c, r, n, 0, Pixel(col.x, col.y + col.h - 1));
    } else {
      FilledSplit(c, r, k);
      if col in Filled(c, r, k - 1) {
        ColumnsEndOnOutline(c, r, n, k - 1, col);
      } else {
        WithinBelow(r, k, n);
        OctantBounds(r, k);
        OctantBounds(r, k - 1);
        var i := if col in Columns(c, k, OctantY(r, k), true, true, 1) && k < OctantY(r, k) + 1 then k else k - 1;
        CircleHas(c, r, n, i, Pixel(col.x, col.y));
        CircleHas(c, r, n, i, Pixel(col.x, col.y + col.h - 1));
      }
    }
  }

  lemma WithinBelow(r: int, k: nat, n: nat)
    requires Within(r, n) && 0 < k <= n
    ensures Within(r, k) && Within(r, k - 1)
  {
  }

  lemma CentreColumn(c: Pixel, r: int, col: Column)
    requires col in Filled(c, r, 0)
    ensures col == Column(c.x, c.y - r, 2 * r + 1)
  {
  }
}
