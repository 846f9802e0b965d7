/**
 `Adafruit_GFX::writeLine`: the pixels of a straight line, in the order in
 which they are written.
 */
module GfxLine {
  import opened Integers

  datatype Pixel = Pixel(x: int, y: int)

  // ----- what a line is -------------------------------------------------------------------

  predicate Steep(p: Pixel, q: Pixel) { Abs(q.y - p.y) > Abs(q.x - p.x) }

  function Major(steep: bool, p: Pixel): int { if steep then p.y else p.x }

  /** How many pixels the line extends along its longer side. */
  function Span(p: Pixel, q: Pixel): nat { Max(Abs(q.x - p.x), Abs(q.y - p.y)) }

  /** The distance of `r` from the line through `p` and `q`, along the shorter side, times the span. */
  function Offset(p: Pixel, q: Pixel, r: Pixel): nat {
    Abs((q.x - p.x) * (r.y - p.y) - (q.y - p.y) * (r.x - p.x))
  }

  /** The pixel is within half a pixel of the ideal line. */
  predicate NearLine(p: Pixel, q: Pixel, r: Pixel) { 2 * Offset(p, q, r) <= Span(p, q) }

  // ----- the two swaps --------------------------------------------------------------------

  function Transposed(steep: bool, p: Pixel): Pixel { if steep then Pixel(p.y, p.x) else p }

  /** Where the loop starts, and where it ends: along x, from left to right. */
  function Start(p: Pixel, q: Pixel): Pixel {
    var s, e := Transposed(Steep(p, q), p), Transposed(Steep(p, q), q);
    if s.x > e.x then e else s
  }

  function End(p: Pixel, q: Pixel): Pixel {
    var s, e := Transposed(Steep(p, q), p), Transposed(Steep(p, q), q);
    if s.x > e.x then s else e
  }

  lemma OffsetTransposed(steep: bool, p: Pixel, q: Pixel, r: Pixel)
    ensures Offset(Transposed(steep, p), Transposed(steep, q), Transposed(steep, r)) == Offset(p, q, r)
  {
  }

  lemma OffsetReversed(p: Pixel, q: Pixel, r: Pixel)
    ensures Offset(q, p, r) == Offset(p, q, r)
  {
    var a, b, c, d := q.x - p.x, q.y - p.y, r.x - p.x, r.y - p.y;
    assert (p.x - q.x) * (r.y - q.y) == -a * (d - b);
    assert (p.y - q.y) * (r.x - q.x) == -b * (c - a);
    assert -a * (d - b) - (-b * (c - a)) == -(a * d - b * c);
  }

  /** The swaps change neither the line nor its span. */
  lemma Normalised(p: Pixel, q: Pixel, r: Pixel)
    ensures var s, e := Start(p, q), End(p, q);
            0 <= Abs(e.y - s.y) <= e.x - s.x == Span(p, q)
            && Offset(s, e, r) == Offset(p, q, Transposed(Steep(p, q), r))
  {
    var steep := Steep(p, q);
    OffsetTransposed(steep, p, q, Transposed(steep, r));
    OffsetReversed(Transposed(steep, p), Transposed(steep, q), r);
    hide Offset;
    assert Transposed(steep, Transposed(steep, r)) == r;
  }

  // ----- Bresenham's algorithm ------------------------------------------------------------

  /** What the loop knows before pixel `i`, after `k` steps of the minor coordinate. */
  predicate ErrorTerm(err: int, dx: int, dy: int, i: int, k: int) {
    && (dx == 0 ==> dy == 0)
    && err == dx / 2 - dy * i + dx * k && 0 <= err && (if dx == 0 then k == 0 else err < dx)
  }

  /** The error term bounds the distance from the line by half a pixel ... */
  lemma ErrorBound(err: int, dx: int, dy: int, i: int, k: int)
    requires ErrorTerm(err, dx, dy, i, k)
    ensures 2 * Abs(dx * k - dy * i) <= dx
  {
    var steps, drop := dx * k, dy * i;
    assert dx == 0 ==> drop <= 0 && err == 0 - drop + steps;
  }

  /** ... and keeps the minor coordinate between those of the end points. */
  lemma StepBound(err: int, dx: int, dy: int, i: int, k: int)
    requires ErrorTerm(err, dx, dy, i, k) && 0 <= dy <= dx && i <= dx
    ensures k <= dy
  {
    assert dx * (dy + 1) == dx * dy + dx && dy * dx == dx * dy;
    if dy < k && 0 < dx {
      Monotone(dx, dy + 1, k);
      Monotone(dy, i, dx);
    }
  }

  lemma Monotone(c: int, a: int, b: int)
    requires 0 <= c && a <= b
    ensures c * a <= c * b
  {
  }

  /** One turn of the loop. */
  lemma ErrorStep(err: int, dx: int, dy: int, i: int, k: int)
    requires ErrorTerm(err, dx, dy, i, k) && 0 <= dy <= dx
    ensures 0 <= err <= dx
    ensures err - dy < 0 ==> ErrorTerm(err - dy + dx, dx, dy, i + 1, k + 1)
    ensures err - dy >= 0 ==> ErrorTerm(err - dy, dx, dy, i + 1, k)
    ensures err - dy < 0 && i < dx ==> k + 1 <= dy
  {
    assert dy * (i + 1) == dy * i + dy && dx * (k + 1) == dx * k + dx;
    if err - dy < 0 && i < dx {
      StepBound(err - dy + dx, dx, dy, i + 1, k + 1);
    }
  }

  /** The minor coordinate after `k` steps toward the end. */
  function Stepped(s: Pixel, e: Pixel, k: int): int { if s.y < e.y then s.y + k else s.y - k }

  /** The pixel that the loop writes. */
  function Plot(p: Pixel, q: Pixel, i: int, k: int): Pixel {
    var s := Start(p, q);
    Transposed(Steep(p, q), Pixel(s.x + i, Stepped(s, End(p, q), k)))
  }

  /** How many minor steps belong to pixel `i`: `dy * i / dx` to the nearest integer, halves down. */
  function Rounded(dx: nat, dy: nat, i: nat): int {
    if dx == 0 then 0 else (dy * i + dx - 1 - dx / 2) / dx
  }

  /** The pixels of `writeLine`. */
  predicate IsLine(p: Pixel, q: Pixel, pixels: seq<Pixel>) {
    var s, e := Start(p, q), End(p, q);
    && |pixels| == Span(p, q) + 1
    && forall i | 0 <= i < |pixels| :: pixels[i] == Plot(p, q, i, Rounded(Span(p, q), Abs(e.y - s.y), i))
  }

  lemma Quotient(a: int, d: int, k: int, r: int)
    requires 0 < d && a == d * k + r && 0 <= r < d
    ensures a / d == k
  {
    var x := a / d - k;
    assert d * x == r - a % d;
    if x >= 1 { Monotone(d, 1, x); } else if x <= -1 { Monotone(d, x, -1); }
  }

  /** The error term determines the number of steps ... */
  lemma RoundedUnique(err: int, dx: int, dy: int, i: int, k: int)
    requires ErrorTerm(err, dx, dy, i, k) && 0 <= dy <= dx && 0 <= i
    ensures k == Rounded(dx, dy, i)
  {
    if dx > 0 {
      Quotient(dy * i + dx - 1 - dx / 2, dx, k, dx - 1 - err);
    }
  }

  /** ... and every number of steps has one. */
  lemma RoundedError(dx: int, dy: int, i: int)
    requires 0 <= dy <= dx && 0 <= i
    ensures var k := Rounded(dx, dy, i); ErrorTerm(dx / 2 - dy * i + dx * k, dx, dy, i, k)
  {
    if dx > 0 {
      var a := dy * i + dx - 1 - dx / 2;
      assert a == dx * (a / dx) + a % dx;
    }
  }

  lemma PlotNear(p: Pixel, q: Pixel, err: int, i: int, k: int)
    requires var s, e := Start(p, q), End(p, q); ErrorTerm(err, e.x - s.x, Abs(e.y - s.y), i, k)
    ensures NearLine(p, q, Plot(p, q, i, k))
  {
    var s, e := Start(p, q), End(p, q);
    Normalised(p, q, Pixel(s.x + i, Stepped(s, e, k)));
    ErrorBound(err, e.x - s.x, Abs(e.y - s.y), i, k);
    SteppedOffset(s, e, i, k);
    hide ErrorTerm, Offset, Start, End, Steep;
  }

  lemma SteppedOffset(s: Pixel, e: Pixel, i: int, k: int)
    ensures Offset(s, e, Pixel(s.x + i, Stepped(s, e, k))) == Abs((e.x - s.x) * k - Abs(e.y - s.y) * i)
  {
    var dx, dy := e.x - s.x, Abs(e.y - s.y);
    if s.y < e.y {
    } else {
      assert dx * -k - -dy * i == -(dx * k - dy * i);
    }
  }

  /** The swaps at the beginning of `writeLine`. */
  method Swapped(p: Pixel, q: Pixel) returns (steep: bool, x0: int, y0: int, x1: int, y1: int)
    ensures steep == Steep(p, q) && Pixel(x0, y0) == Start(p, q) && Pixel(x1, y1) == End(p, q)
  {
    x0, y0, x1, y1 := p.x, p.y, q.x, q.y;
    steep := Abs(y1 - y0) > Abs(x1 - x0);
    if steep {
      x0, y0 := y0, x0;
      x1, y1 := y1, x1;
    }
    if x0 > x1 {
      x0, x1 := x1, x0;
      y0, y1 := y1, y0;
    }
  }

  /** The ends of the loop in terms of the ends of the line. */
  lemma Ends(p: Pixel, q: Pixel)
    ensures var s, e := Start(p, q), End(p, q);
            0 <= Abs(e.y - s.y) <= e.x - s.x == Span(p, q)
            && s.x == Min(Major(Steep(p, q), p), Major(Steep(p, q), q))
            && e.x == Max(Major(Steep(p, q), p), Major(Steep(p, q), q))
    ensures InInt16(p.x) && InInt16(p.y) && InInt16(q.x) && InInt16(q.y) ==>
              InInt16(Start(p, q).x) && InInt16(Start(p, q).y) && InInt16(End(p, q).y)
  {
    Normalised(p, q, p);
  }

  // ----- the loop in 16 bits --------------------------------------------------------------

  predicate InRange(p: Pixel) { InInt16(p.x) && InInt16(p.y) }

  /** C's division by two, toward zero. */
  function Half(v: int): int { if v < 0 then -(-v / 2) else v / 2 }

  /** The variables `x0`, `y0` and `err` of the loop. */
  datatype Cursor = Cursor(x: int, y: int, err: int)

  /** One turn of the loop. */
  function Turn(t: Cursor, dx: int, dy: int, ystep: int): Cursor {
    var err := Int16(t.err - dy);
    if err < 0 then Cursor(Int16(t.x + 1), Int16(t.y + ystep), Int16(err + dx)) else Cursor(Int16(t.x + 1), t.y, err)
  }

  function Dx(p: Pixel, q: Pixel): int { Int16(End(p, q).x - Start(p, q).x) }

  function Dy(p: Pixel, q: Pixel): int { Int16(Abs(End(p, q).y - Start(p, q).y)) }

  function YStep(p: Pixel, q: Pixel): int { if Start(p, q).y < End(p, q).y then 1 else -1 }

  /** The loop variables after `n` turns. */
  function After(p: Pixel, q: Pixel, n: nat): Cursor {
    if n == 0 then Cursor(Start(p, q).x, Start(p, q).y, Half(Dx(p, q)))
    else Turn(After(p, q, n - 1), Dx(p, q), Dy(p, q), YStep(p, q))
  }

  /** The pixel written in turn `i`. */
  function Written(p: Pixel, q: Pixel, i: nat): Pixel {
    Transposed(Steep(p, q), Pixel(After(p, q, i).x, After(p, q, i).y))
  }

  /** The major coordinate of the end at which the loop stops. */
  function Last(p: Pixel, q: Pixel): int { Max(Major(Steep(p, q), p), Major(Steep(p, q), q)) }

  /** The guard of the loop holds in turn `n`. */
  predicate GoesOn(p: Pixel, q: Pixel, n: nat) { After(p, q, n).x <= End(p, q).x }

  lemma {:induction false} AfterX(p: Pixel, q: Pixel, n: nat)
    requires InRange(p) && InRange(q)
    ensures InInt16(After(p, q, n).x)
    ensures n <= Span(p, q) + 1 && Last(p, q) < 0x7FFF ==> After(p, q, n).x == Start(p, q).x + n
  {
    hide Start, End, Span, Steep;
    Ends(p, q);
    if n > 0 {
      AfterX(p, q, n - 1);
    }
  }

  /** The loop ends, after one turn for every major coordinate, exactly if the larger one can be exceeded. */
  lemma LoopEnds(p: Pixel, q: Pixel)
    requires InRange(p) && InRange(q)
    ensures (exists n :: !GoesOn(p, q, n)) <==> Last(p, q) < 0x7FFF
    ensures Last(p, q) < 0x7FFF ==> !GoesOn(p, q, Span(p, q) + 1) && forall i: nat | i <= Span(p, q) :: GoesOn(p, q, i)
  {
    hide After, Start, End, Span, Steep;
    Ends(p, q);
    if Last(p, q) < 0x7FFF {
      var n := Span(p, q) + 1;
      AfterX(p, q, n);
      assert !GoesOn(p, q, n);
      forall i: nat | i <= Span(p, q) ensures GoesOn(p, q, i) { AfterX(p, q, i); }
    } else {
      forall n: nat ensures GoesOn(p, q, n) { AfterX(p, q, n); }
    }
  }

  /** `writeLine`; the loop does not end if the larger major coordinate is 32767 (`LoopEnds`). */
  method WriteLine(p: Pixel, q: Pixel) returns (pixels: seq<Pixel>)
    requires InRange(p) && InRange(q) && Last(p, q) < 0x7FFF
    ensures |pixels| == Span(p, q) + 1 && forall i | 0 <= i < |pixels| :: pixels[i] == Written(p, q, i)
    ensures Span(p, q) <= 0x7FFF ==> IsLine(p, q, pixels)
  {
    hide Int16, Start, End, Steep, Span, Last, IsLine, After, Half;
    LoopEnds(p, q);
    AfterUnfold(p, q, 0);
    var steep, x0, y0, x1, y1 := Swapped(p, q);
    var dx := Int16(x1 - x0);
    var dy := Int16(Abs(y1 - y0));
    var err := Half(dx);
    var ystep := if y0 < y1 then 1 else -1;
    pixels := [];
    ghost var n := Span(p, q) + 1;
    while x0 <= x1
      invariant |pixels| <= n && Cursor(x0, y0, err) == After(p, q, |pixels|)
      invariant forall i | 0 <= i < |pixels| :: pixels[i] == Written(p, q, i)
      decreases n - |pixels|
    {
      assert GoesOn(p, q, |pixels|);
      AfterUnfold(p, q, |pixels| + 1);
      if steep {
        pixels := pixels + [Pixel(y0, x0)];
      } else {
        pixels := pixels + [Pixel(x0, y0)];
      }
      err := Int16(err - dy);
      if err < 0 {
        y0 := Int16(y0 + ystep);
        err := Int16(err + dx);
      }
      x0 := Int16(x0 + 1);
    }
    assert !GoesOn(p, q, |pixels|);
    if Span(p, q) <= 0x7FFF {
      WrittenIsLine(p, q, pixels);
    }
  }

  /** Up to a span of 32767 nothing wraps around: the loop computes the rounded line. */
  lemma {:induction false} AfterRounds(p: Pixel, q: Pixel, i: nat)
    requires InRange(p) && InRange(q) && i <= Span(p, q) <= 0x7FFF
    ensures var s, e := Start(p, q), End(p, q);
            var dx, dy := e.x - s.x, Abs(e.y - s.y);
            var k, t := Rounded(dx, dy, i), After(p, q, i);
            t == Cursor(s.x + i, Stepped(s, e, k), t.err) && ErrorTerm(t.err, dx, dy, i, k) && 0 <= k <= dy
  {
    hide Start, End, Steep, Span, ErrorTerm, Rounded, After, Int16, Turn;
    Ends(p, q);
    var s, e := Start(p, q), End(p, q);
    var dx, dy := e.x - s.x, Abs(e.y - s.y);
    if i == 0 {
      FirstError(dx, dy);
      RoundedUnique(dx / 2, dx, dy, 0, 0);
      AfterUnfold(p, q, 0);
    } else {
      AfterRounds(p, q, i - 1);
      var k, t := Rounded(dx, dy, i - 1), After(p, q, i - 1);
      ErrorStep(t.err, dx, dy, i - 1, k);
      AfterUnfold(p, q, i);
      ExactTurn(t, dx, dy, YStep(p, q));
      var l := if t.err - dy < 0 then k + 1 else k;
      RoundedUnique(After(p, q, i).err, dx, dy, i, l);
    }
  }

  /** A turn in which nothing wraps around. */
  lemma ExactTurn(t: Cursor, dx: int, dy: int, ystep: int)
    requires InInt16(t.x + 1) && InInt16(t.err - dy)
    requires t.err < dy ==> InInt16(t.y + ystep) && InInt16(t.err - dy + dx)
    ensures Turn(t, dx, dy, ystep)
         == if t.err < dy then Cursor(t.x + 1, t.y + ystep, t.err - dy + dx) else Cursor(t.x + 1, t.y, t.err - dy)
  {
  }

  lemma AfterUnfold(p: Pixel, q: Pixel, n: nat)
    ensures n == 0 ==> After(p, q, n) == Cursor(Start(p, q).x, Start(p, q).y, Half(Dx(p, q)))
    ensures n > 0 ==> After(p, q, n) == Turn(After(p, q, n - 1), Dx(p, q), Dy(p, q), YStep(p, q))
  {
  }

  lemma WrittenIsLine(p: Pixel, q: Pixel, pixels: seq<Pixel>)
    requires InRange(p) && InRange(q) && Span(p, q) <= 0x7FFF
    requires |pixels| == Span(p, q) + 1 && forall i | 0 <= i < |pixels| :: pixels[i] == Written(p, q, i)
    ensures IsLine(p, q, pixels)
  {
    hide Start, End, Steep, Span, ErrorTerm, Rounded, After;
    Ends(p, q);
    var s, e := Start(p, q), End(p, q);
    forall i | 0 <= i < |pixels| ensures pixels[i] == Plot(p, q, i, Rounded(Span(p, q), Abs(e.y - s.y), i)) {
      AfterRounds(p, q, i);
    }
  }

  lemma FirstError(dx: int, dy: int)
    requires 0 <= dy <= dx
    ensures ErrorTerm(dx / 2, dx, dy, 0, 0)
  {
  }

  // ----- what the pixels mean -------------------------------------------------------------

  /** One pixel for every major coordinate, each within half a pixel of the ideal line. */
  lemma LineIsClose(p: Pixel, q: Pixel, pixels: seq<Pixel>, i: nat)
    requires IsLine(p, q, pixels) && i < |pixels|
    ensures var steep := Steep(p, q);
            Major(steep, pixels[i]) == Min(Major(steep, p), Major(steep, q)) + i && NearLine(p, q, pixels[i])
  {
    Ends(p, q);
    var s, e := Start(p, q), End(p, q);
    var k := Rounded(e.x - s.x, Abs(e.y - s.y), i);
    RoundedError(e.x - s.x, Abs(e.y - s.y), i);
    PlotNear(p, q, (e.x - s.x) / 2 - Abs(e.y - s.y) * i + (e.x - s.x) * k, i, k);
    hide Start, End, NearLine, Rounded;
  }

  /** The first two values of the error term for a span `d` that wraps around, over `v` minor coordinates. */
  lemma FirstErrors(d: int, v: int)
    requires 0x8000 <= d < 0xFFFF && 0 <= v <= d
    ensures Int16(d) == d - 0x1_0000
    ensures var err := Int16(Half(d - 0x1_0000) - Int16(v));
            && (err >= 0 ==> 2 * v > d)
            && (err < 0 && 2 * v >= d ==> 2 * v <= d + 1 && Int16(Int16(err + d - 0x1_0000) - Int16(v)) < 0)
  {
  }

  /**
   A line that is longer than 32767 leaves the ideal line within three pixels:
   the difference of its ends wraps around.
   */
  lemma LongLineStrays(p: Pixel, q: Pixel) returns (i: nat)
    requires InRange(p) && InRange(q) && Span(p, q) > 0x7FFF && Last(p, q) < 0x7FFF
    ensures i <= 2 && !NearLine(p, q, Written(p, q, i))
  {
    hide Start, End, Steep, Span, NearLine, After, Written, Abs;
    Ends(p, q);
    WrittenNear(p, q, 1);
    WrittenNear(p, q, 2);
    var s, e := Start(p, q), End(p, q);
    FirstClimbs(p, q);
    FarOff(e.x - s.x, Abs(e.y - s.y), Climbed(s, e, After(p, q, 1).y), Climbed(s, e, After(p, q, 2).y));
    i := if NearLine(p, q, Written(p, q, 1)) then 2 else 1;
  }

  /** The minor steps of the first two turns. */
  lemma FirstClimbs(p: Pixel, q: Pixel)
    requires InRange(p) && InRange(q) && Span(p, q) > 0x7FFF && Last(p, q) < 0x7FFF
    ensures var s, e := Start(p, q), End(p, q);
            WrongClimb(e.x - s.x, Abs(e.y - s.y), Climbed(s, e, After(p, q, 1).y), Climbed(s, e, After(p, q, 2).y))
  {
    hide Start, End, Steep, Span, After, Int16, Half, Climbed, Abs, Turn, WrongClimb;
    Ends(p, q);
    AfterUnfold(p, q, 0);
    AfterUnfold(p, q, 1);
    AfterUnfold(p, q, 2);
    var s, e := Start(p, q), End(p, q);
    FirstErrors(e.x - s.x, Abs(e.y - s.y));
    TwoTurns(s, e, e.x - s.x, Cursor(s.x, s.y, Half(Dx(p, q))));
  }

  lemma TwoTurns(s: Pixel, e: Pixel, d: int, t: Cursor)
    requires InInt16(s.y) && InInt16(e.y) && 0x8000 <= d < 0xFFFF && Abs(e.y - s.y) <= d
    requires t == Cursor(s.x, s.y, Half(d - 0x1_0000))
    ensures var v, ystep := Abs(e.y - s.y), if s.y < e.y then 1 else -1;
            var t1 := Turn(t, d - 0x1_0000, Int16(v), ystep);
            var t2 := Turn(t1, d - 0x1_0000, Int16(v), ystep);
            WrongClimb(d, v, Climbed(s, e, t1.y), Climbed(s, e, t2.y))
  {
    hide Int16, Half, Climbed, Abs;
    FirstErrors(d, Abs(e.y - s.y));
    FirstClimb(s, e);
    ZeroAbs(e.y - s.y);
  }

  lemma ZeroAbs(v: int)
    ensures Abs(v) == 0 <==> v == 0
  {
  }

  /** No step where one is due, or a step where none is, or two steps for a little more than one. */
  predicate WrongClimb(d: int, v: int, k: int, l: int) {
    || (k == 0 && 2 * v > d)
    || ((k == 1 || (v == 0 && k == -0xFFFF)) && 2 * v < d)
    || (2 * v <= d + 1 && l == 2)
  }

  lemma FarOff(d: int, v: int, k: int, l: int)
    requires 0x8000 <= d && 0 <= v <= d && WrongClimb(d, v, k, l)
    ensures 2 * Abs(d * k - v * 1) > d || 2 * Abs(d * l - v * 2) > d
  {
  }

  /** The first two minor steps toward the end; the first one wraps around at most if there is none to make. */
  lemma FirstClimb(s: Pixel, e: Pixel)
    requires InInt16(s.y) && InInt16(e.y)
    ensures var y := Int16(s.y + if s.y < e.y then 1 else -1);
            && Climbed(s, e, s.y) == 0 && (Climbed(s, e, y) == 1 || (s.y == e.y && Climbed(s, e, y) == -0xFFFF))
            && (Abs(e.y - s.y) >= 2 ==> Climbed(s, e, Int16(y + if s.y < e.y then 1 else -1)) == 2)
  {
  }

  /** How many steps toward the end the minor coordinate `y` is. */
  function Climbed(s: Pixel, e: Pixel, y: int): int { if s.y < e.y then y - s.y else s.y - y }

  lemma WrittenNear(p: Pixel, q: Pixel, i: nat)
    requires InRange(p) && InRange(q) && Last(p, q) < 0x7FFF && i <= Span(p, q) + 1
    ensures var s, e := Start(p, q), End(p, q);
            NearLine(p, q, Written(p, q, i))
            <==> 2 * Abs((e.x - s.x) * Climbed(s, e, After(p, q, i).y) - Abs(e.y - s.y) * i) <= e.x - s.x
  {
    hide Start, End, Steep, Span, Offset, After;
    var s, e, t := Start(p, q), End(p, q), After(p, q, i);
    AfterX(p, q, i);
    Normalised(p, q, Pixel(t.x, t.y));
    SteppedOffset(s, e, i, Climbed(s, e, t.y));
    assert Stepped(s, e, Climbed(s, e, t.y)) == t.y;
  }

  /** All pixels are within half a pixel of the line exactly if it is at most 32767 long. */
  lemma LineExact(p: Pixel, q: Pixel)
    requires InRange(p) && InRange(q) && Last(p, q) < 0x7FFF
    ensures (forall i: nat | i <= Span(p, q) :: NearLine(p, q, Written(p, q, i))) <==> Span(p, q) <= 0x7FFF
  {
    hide NearLine, Start, End, Steep, Span, Written;
    if Span(p, q) <= 0x7FFF {
      var pixels := seq(Span(p, q) + 1, i requires 0 <= i => Written(p, q, i));
      WrittenIsLine(p, q, pixels);
      forall i: nat | i <= Span(p, q) ensures NearLine(p, q, Written(p, q, i)) {
        LineIsClose(p, q, pixels, i);
        assert pixels[i] == Written(p, q, i);
      }
    } else {
      var i := LongLineStrays(p, q);
    }
  }

  /** The line begins at one end point and ends at the other. */
  lemma LineHitsEnds(p: Pixel, q: Pixel, pixels: seq<Pixel>)
    requires IsLine(p, q, pixels)
    ensures {pixels[0], pixels[|pixels| - 1]} == {p, q}
  {
    Ends(p, q);
    var s, e := Start(p, q), End(p, q);
    var dx: int := Span(p, q);
    var dy: int := Abs(e.y - s.y);
    FirstError(dx, dy);
    RoundedUnique(dx / 2, dx, dy, 0, 0);
    assert dx / 2 - dy * dx + dx * dy == dx / 2;
    RoundedUnique(dx / 2, dx, dy, dx, dy);
    assert pixels[0] == Transposed(Steep(p, q), s);
    assert pixels[dx] == Transposed(Steep(p, q), e);
  }

  /** Drawn from the other end, the line is the same. */
  lemma LineReversed(p: Pixel, q: Pixel, pixels: seq<Pixel>)
    ensures IsLine(p, q, pixels) <==> IsLine(q, p, pixels)
  {
    assert Span(p, q) == Span(q, p) && Steep(p, q) == Steep(q, p);
    if Span(p, q) == 0 {
      assert p == q;
    } else {
      assert Start(p, q) == Start(q, p) && End(p, q) == End(q, p);
      hide Start, End, Span, Steep, Rounded;
      assert forall i, k :: Plot(p, q, i, k) == Plot(q, p, i, k);
    }
  }
}
