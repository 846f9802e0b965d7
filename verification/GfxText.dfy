/**
 Text in the classic font: where `write` puts the characters, and the
 rectangle that `getTextBounds` computes for them.
 */
module GfxText {
  import opened CBytes
  import opened GfxLine
  import opened Integers

  const CARRIAGE_RETURN: byte := 13

  /** The settings that matter: magnification, line wrapping, and the width of the view. */
  datatype Style = Style(sizeX: nat, sizeY: nat, wrap: bool, width: int)

  predicate ValidStyle(st: Style) { 1 <= st.sizeX < 256 && 1 <= st.sizeY < 256 }

  function CellWidth(st: Style): nat { st.sizeX * 6 }

  function CellHeight(st: Style): nat { st.sizeY * 8 }

  function NextLine(st: Style, cursor: Pixel): Pixel { Pixel(0, Int16(cursor.y + CellHeight(st))) }

  predicate Draws(c: byte) { c != NEWLINE && c != CARRIAGE_RETURN }

  /** Where a character is drawn: at the cursor, or on the next line. */
  function CellAt(st: Style, cursor: Pixel): Pixel {
    if st.wrap && cursor.x + CellWidth(st) > st.width then NextLine(st, cursor) else cursor
  }

  /** The cursor after a character. */
  function Moved(st: Style, cursor: Pixel, c: byte): Pixel {
    if c == NEWLINE then NextLine(st, cursor)
    else if c == CARRIAGE_RETURN then cursor
    else var cell := CellAt(st, cursor); Pixel(Int16(cell.x + CellWidth(st)), cell.y)
  }

  /** The upper left corners of the characters of a text. */
  function Cells(st: Style, cursor: Pixel, s: bytes): seq<Pixel>
    decreases s
  {
    if s == [] then []
    else (if Draws(s[0]) then [CellAt(st, cursor)] else []) + Cells(st, Moved(st, cursor, s[0]), s[1..])
  }

  /** The cursor after a text. */
  function Finish(st: Style, cursor: Pixel, s: bytes): Pixel
    decreases s
  {
    if s == [] then cursor else Finish(st, Moved(st, cursor, s[0]), s[1..])
  }

  lemma {:induction false} TextExtended(st: Style, cursor: Pixel, s: bytes, c: byte)
    ensures Finish(st, cursor, s + [c]) == Moved(st, Finish(st, cursor, s), c)
    ensures Cells(st, cursor, s + [c])
         == Cells(st, cursor, s) + if Draws(c) then [CellAt(st, Finish(st, cursor, s))] else []
    decreases s
  {
    hide CellAt, Moved;
    if s == [] {
      assert (s + [c])[1..] == [];
      assert Cells(st, Moved(st, cursor, c), []) == [];
    } else {
      assert (s + [c])[1..] == s[1..] + [c];
      TextExtended(st, Moved(st, cursor, s[0]), s[1..], c);
    }
  }

  /** The cursor is stored in 16 bits. */
  lemma {:induction false} CellsInRange(st: Style, cursor: Pixel, s: bytes)
    requires InRange(cursor)
    ensures forall i | 0 <= i < |Cells(st, cursor, s)| :: InRange(Cells(st, cursor, s)[i])
    decreases s
  {
    hide Int16;
    if s != [] {
      CellsInRange(st, Moved(st, cursor, s[0]), s[1..]);
    }
  }

  // ----- wrapped text -----------------------------------------------------------------------

  /** How many characters fit side by side. */
  function PerLine(st: Style): nat
    requires ValidStyle(st) && st.width >= 0
  {
    st.width / CellWidth(st)
  }

  /** Character number `k` of a wrapped text that begins at the left in row `y`. */
  function GridCell(st: Style, y: int, k: nat): Pixel
    requires ValidStyle(st) && CellWidth(st) <= st.width
  {
    Fits(st);
    Pixel(k % PerLine(st) * CellWidth(st), y + k / PerLine(st) * CellHeight(st))
  }

  lemma Fits(st: Style)
    requires ValidStyle(st) && CellWidth(st) <= st.width
    ensures PerLine(st) > 0 && PerLine(st) * CellWidth(st) <= st.width < (PerLine(st) + 1) * CellWidth(st)
  {
  }

  /** The cursor behind `n` characters. */
  function BehindCells(st: Style, y: int, n: nat): Pixel
    requires ValidStyle(st) && CellWidth(st) <= st.width
  {
    if n == 0 then Pixel(0, y)
    else var cell := GridCell(st, y, n - 1); Pixel(cell.x + CellWidth(st), cell.y)
  }

  lemma NextCell(n: nat, per: nat)
    requires n > 0 && per > 0
    ensures if (n - 1) % per + 1 == per then n % per == 0 && n / per == (n - 1) / per + 1
            else n % per == (n - 1) % per + 1 && n / per == (n - 1) / per
  {
    var q, r := (n - 1) / per, (n - 1) % per;
    assert n - 1 == q * per + r;
    if r + 1 == per {
      assert n == (q + 1) * per;
      Quotient(n, per, q + 1, 0);
    } else {
      Quotient(n, per, q, r + 1);
    }
  }

  lemma Quotient(n: nat, d: nat, q: nat, r: nat)
    requires n == q * d + r && r < d
    ensures n / d == q && n % d == r
  {
    var k := n / d;
    assert n == k * d + n % d;
    if k < q {
      Spread(k + 1, q, d);
    } else if q < k {
      Spread(q + 1, k, d);
    }
  }

  lemma Spread(a: nat, b: nat, d: nat)
    requires a <= b
    ensures a * d <= b * d
  {
  }

  /** Whether a character wraps: there is room for another one in the line exactly if it is not full. */
  lemma WrapsWhenFull(st: Style, column: nat)
    requires ValidStyle(st) && CellWidth(st) <= st.width && column <= PerLine(st)
    ensures column * CellWidth(st) + CellWidth(st) > st.width <==> column == PerLine(st)
    ensures column * CellWidth(st) <= st.width
  {
    Fits(st);
    Spread(column, PerLine(st), CellWidth(st));
    if column < PerLine(st) {
      Spread(column + 1, PerLine(st), CellWidth(st));
    }
  }

  /** The next character of a wrapped text is drawn where the grid has it. */
  lemma CellOnGrid(st: Style, y: int, n: nat)
    requires ValidStyle(st) && st.wrap && CellWidth(st) <= st.width <= 0x7FFF && InInt16(y)
    requires InInt16(GridCell(st, y, n).y)
    ensures CellAt(st, BehindCells(st, y, n)) == GridCell(st, y, n)
  {
    hide CellWidth, CellHeight, PerLine, Int16;
    var per := PerLine(st);
    Fits(st);
    if n == 0 {
      WrapsWhenFull(st, 0);
      FirstCell(st, y);
    } else {
      NextCell(n, per);
      WrapsWhenFull(st, (n - 1) % per + 1);
      NextColumn((n - 1) % per, CellWidth(st));
      NextRow(st, y, (n - 1) / per);
    }
  }

  lemma FirstCell(st: Style, y: int)
    requires ValidStyle(st) && CellWidth(st) <= st.width
    ensures GridCell(st, y, 0) == Pixel(0, y)
  {
  }

  lemma NextColumn(column: nat, size: nat)
    ensures (column + 1) * size == column * size + size
  {
  }

  /** With the row of a cell that of the cell in front of it is a 16-bit coordinate. */
  lemma RowsFit(st: Style, y: int, n: nat)
    requires ValidStyle(st) && CellWidth(st) <= st.width && InInt16(y) && n > 0 && InInt16(GridCell(st, y, n).y)
    ensures InInt16(GridCell(st, y, n - 1).y)
  {
    hide CellWidth, CellHeight, PerLine;
    Fits(st);
    NextCell(n, PerLine(st));
    RowBetween(y, (n - 1) / PerLine(st), n / PerLine(st), CellHeight(st));
  }

  lemma RowBetween(y: int, a: nat, b: nat, size: nat)
    requires a <= b && InInt16(y) && InInt16(y + b * size)
    ensures InInt16(y + a * size)
  {
    Spread(0, a, size);
    Spread(a, b, size);
  }

  lemma NextRow(st: Style, y: int, row: nat)
    ensures y + row * CellHeight(st) + CellHeight(st) == y + (row + 1) * CellHeight(st)
    ensures InInt16(y + (row + 1) * CellHeight(st)) ==>
      NextLine(st, Pixel(0, y + row * CellHeight(st))).y == y + (row + 1) * CellHeight(st)
  {
    NextColumn(row, CellHeight(st));
  }

  /**
   A text without line ends that is printed from the left margin with wrapping
   on fills a grid: as many characters to a line as fit in the width, the last
   of them also if it fits exactly.
   */
  lemma {:induction false} WrappedText(st: Style, y: int, s: bytes)
    requires ValidStyle(st) && st.wrap && CellWidth(st) <= st.width <= 0x7FFF && InInt16(y)
    requires s != [] ==> InInt16(GridCell(st, y, |s| - 1).y)
    requires forall i | 0 <= i < |s| :: Draws(s[i])
    ensures |Cells(st, Pixel(0, y), s)| == |s|
    ensures forall k | 0 <= k < |s| :: Cells(st, Pixel(0, y), s)[k] == GridCell(st, y, k)
    ensures Finish(st, Pixel(0, y), s) == BehindCells(st, y, |s|)
    decreases |s|
  {
    hide CellAt, GridCell, CellWidth, CellHeight, Int16;
    if s != [] {
      var init, last := s[..|s| - 1], s[|s| - 1];
      assert init + [last] == s;
      if init != [] {
        RowsFit(st, y, |init|);
      }
      WrappedText(st, y, init);
      TextExtended(st, Pixel(0, y), init, last);
      CellOnGrid(st, y, |init|);
      CellStored(st, y, |init|);
    }
  }

  /** The cursor behind a cell is stored as it is. */
  lemma CellStored(st: Style, y: int, n: nat)
    requires ValidStyle(st) && CellWidth(st) <= st.width <= 0x7FFF
    ensures Int16(GridCell(st, y, n).x + CellWidth(st)) == GridCell(st, y, n).x + CellWidth(st)
  {
    hide CellWidth, CellHeight, PerLine;
    Fits(st);
    WrapsWhenFull(st, n % PerLine(st) + 1);
    NextColumn(n % PerLine(st), CellWidth(st));
  }

  // ----- boxes ----------------------------------------------------------------------------

  datatype Box = Box(minx: int, miny: int, maxx: int, maxy: int)

  function Right(st: Style, cell: Pixel): int { cell.x + CellWidth(st) - 1 }

  function Bottom(st: Style, cell: Pixel): int { cell.y + CellHeight(st) - 1 }

  /** A maximum that is compared as an `int` and stored as an `int16_t`. */
  function Later(hi: int, end: int): int { if end > hi then Int16(end) else hi }

  /** The box after another character. */
  function Grown(st: Style, b: Box, cell: Pixel): Box {
    Box(Min(cell.x, b.minx), Min(cell.y, b.miny),
        Later(b.maxx, Right(st, cell)), Later(b.maxy, Bottom(st, cell)))
  }

  /** The bounds that the loop collects. */
  function BoxOf(st: Style, cells: seq<Pixel>): Box {
    if cells == [] then Box(0x7FFF, 0x7FFF, -1, -1)
    else Grown(st, BoxOf(st, cells[..|cells| - 1]), cells[|cells| - 1])
  }

  /** What `getTextBounds` returns, the width and the height as `uint16_t`s. */
  datatype Rect = Rect(x: int, y: int, w: nat, h: nat)

  function Rectangle(b: Box, start: Pixel): Rect {
    Rect(Edge(b.minx, b.maxx, start.x), Edge(b.miny, b.maxy, start.y), Length(b.minx, b.maxx), Length(b.miny, b.maxy))
  }

  function Edge(lo: int, hi: int, start: int): int { if hi >= lo then lo else start }

  function Length(lo: int, hi: int): nat { if hi >= lo then (hi - lo + 1) % 0x1_0000 else 0 }

  /** The pixels of a rectangle. */
  function Inside(r: Rect): Box { Box(r.x, r.y, r.x + r.w - 1, r.y + r.h - 1) }

  /** All characters lie inside. */
  predicate Encloses(st: Style, b: Box, cells: seq<Pixel>) {
    forall i | 0 <= i < |cells| ::
      b.minx <= cells[i].x && b.miny <= cells[i].y && Right(st, cells[i]) <= b.maxx && Bottom(st, cells[i]) <= b.maxy
  }

  /** The smallest box around the characters: it lies inside every box around them. */
  ghost predicate Smallest(st: Style, b: Box, cells: seq<Pixel>) {
    && Encloses(st, b, cells)
    && forall o: Box | Encloses(st, o, cells) ::
         o.minx <= b.minx && o.miny <= b.miny && b.maxx <= o.maxx && b.maxy <= o.maxy
  }

  class Adafruit_GFX {
    var cursor_x: int
    var cursor_y: int
    var textsize_x: nat
    var textsize_y: nat
    var wrap: bool
    var width: int
    /** The calls of `drawChar`: the corners of the characters drawn. */
    var drawn: seq<Pixel>

    ghost predicate Valid()
      reads this
    {
      ValidStyle(TextStyle()) && InInt16(cursor_x) && InInt16(cursor_y)
    }

    function TextStyle(): Style
      reads this
    {
      Style(textsize_x, textsize_y, wrap, width)
    }

    function Cursor(): Pixel
      reads this
    {
      Pixel(cursor_x, cursor_y)
    }

    /** `setTextSize`. */
    method SetTextSize(x: nat, y: nat)
      requires Valid() && x < 256 && y < 256
      modifies this`textsize_x, this`textsize_y
      ensures Valid() && TextStyle() == old(TextStyle()).(sizeX := Max(x, 1), sizeY := Max(y, 1))
    {
      textsize_x := if x > 0 then x else 1;
      textsize_y := if y > 0 then y else 1;
    }

    /** `write`. */
    method Write(c: byte)
      requires Valid()
      modifies this`cursor_x, this`cursor_y, this`drawn
      ensures Valid() && Cursor() == Moved(TextStyle(), old(Cursor()), c)
      ensures drawn == old(drawn) + if Draws(c) then [CellAt(TextStyle(), old(Cursor()))] else []
    {
      hide Int16;
      if c == NEWLINE {
        cursor_x := 0;
        cursor_y := Int16(cursor_y + textsize_y * 8);
      } else if c != CARRIAGE_RETURN {
        if wrap && cursor_x + textsize_x * 6 > width {
          cursor_x := 0;
          cursor_y := Int16(cursor_y + textsize_y * 8);
        }
        drawn := drawn + [Pixel(cursor_x, cursor_y)];
        cursor_x := Int16(cursor_x + textsize_x * 6);
      }
    }

    /** Printing a string is writing its characters. */
    method PrintText(s: cstring)
      requires Valid()
      modifies this`cursor_x, this`cursor_y, this`drawn
      ensures Valid() && Cursor() == Finish(TextStyle(), old(Cursor()), s)
      ensures drawn == old(drawn) + Cells(TextStyle(), old(Cursor()), s)
    {
      hide CellAt, Moved;
      var i := 0;
      while i < |s|
        invariant 0 <= i <= |s| && Valid()
        invariant Cursor() == Finish(TextStyle(), old(Cursor()), s[..i])
        invariant drawn == old(drawn) + Cells(TextStyle(), old(Cursor()), s[..i])
      {
        Write(s[i]);
        assert s[..i + 1] == s[..i] + [s[i]];
        TextExtended(TextStyle(), old(Cursor()), s[..i], s[i]);
        i := i + 1;
      }
      assert s[..i] == s;
    }

    /** `charBounds`: the cursor and the box, each after the character. */
    method CharBounds(c: byte, x: int, y: int, b: Box) returns (x': int, y': int, b': Box)
      requires Valid() && InInt16(x) && InInt16(y)
      ensures InInt16(x') && InInt16(y') && Pixel(x', y') == Moved(TextStyle(), Pixel(x, y), c)
      ensures b' == (if Draws(c) then Grown(TextStyle(), b, CellAt(TextStyle(), Pixel(x, y))) else b)
    {
      hide Int16;
      x', y', b' := x, y, b;
      if c == NEWLINE {
        x' := 0;
        y' := Int16(y' + textsize_y * 8);
      } else if c != CARRIAGE_RETURN {
        if wrap && x' + textsize_x * 6 > width {
          x' := 0;
          y' := Int16(y' + textsize_y * 8);
        }
        var x2 := x' + textsize_x * 6 - 1;
        var y2 := y' + textsize_y * 8 - 1;
        if x2 > b'.maxx {
          b' := b'.(maxx := Int16(x2));
        }
        if y2 > b'.maxy {
          b' := b'.(maxy := Int16(y2));
        }
        if x' < b'.minx {
          b' := b'.(minx := x');
        }
        if y' < b'.miny {
          b' := b'.(miny := y');
        }
        x' := Int16(x' + textsize_x * 6);
      }
    }

    /** `getTextBounds`. */
    method GetTextBounds(s: cstring, x: int, y: int) returns (x1: int, y1: int, w: nat, h: nat)
      requires Valid() && InInt16(x) && InInt16(y)
      ensures var st, start := TextStyle(), Pixel(x, y);
              Rect(x1, y1, w, h) == Rectangle(BoxOf(st, Cells(st, start, s)), start)
    {
      hide CellAt, Moved, Grown, Cells, Finish, BoxOf;
      var cx, cy, b := x, y, Box(0x7FFF, 0x7FFF, -1, -1);
      x1, y1, w, h := x, y, 0, 0;
      ghost var st, start := TextStyle(), Pixel(x, y);
      NoText(st, start);
      var i := 0;
      while i < |s|
        invariant 0 <= i <= |s| && InInt16(cx) && InInt16(cy)
        invariant Pixel(cx, cy) == Finish(st, start, s[..i])
        invariant b == BoxOf(st, Cells(st, start, s[..i]))
      {
        assert s[..i + 1] == s[..i] + [s[i]];
        TextExtended(st, start, s[..i], s[i]);
        ghost var before := Cells(st, start, s[..i]);
        assert before + [] == before;
        if Draws(s[i]) {
          BoxExtended(st, before, CellAt(st, Pixel(cx, cy)));
        }
        cx, cy, b := CharBounds(s[i], cx, cy, b);
        i := i + 1;
      }
      assert s[..i] == s;
      if b.maxx >= b.minx {
        x1 := b.minx;
        w := (b.maxx - b.minx + 1) % 0x1_0000;
      }
      if b.maxy >= b.miny {
        y1 := b.miny;
        h := (b.maxy - b.miny + 1) % 0x1_0000;
      }
    }
  }

  // ----- the rectangle, one axis at a time ------------------------------------------------

  function Xs(cells: seq<Pixel>): seq<int> { seq(|cells|, i requires 0 <= i < |cells| => cells[i].x) }

  function Ys(cells: seq<Pixel>): seq<int> { seq(|cells|, i requires 0 <= i < |cells| => cells[i].y) }

  /** The bounds of the loop on one axis, for characters of `size` pixels that begin at `ns`. */
  function Lowest(ns: seq<int>): int {
    if ns == [] then 0x7FFF else Min(ns[|ns| - 1], Lowest(ns[..|ns| - 1]))
  }

  function Highest(ns: seq<int>, size: nat): int {
    if ns == [] then -1 else Later(Highest(ns[..|ns| - 1], size), ns[|ns| - 1] + size - 1)
  }

  lemma {:induction false} BoxByAxis(st: Style, cells: seq<Pixel>)
    ensures var xs, ys := Xs(cells), Ys(cells);
            BoxOf(st, cells) == Box(Lowest(xs), Lowest(ys), Highest(xs, CellWidth(st)), Highest(ys, CellHeight(st)))
  {
    hide Later, Min, CellWidth, CellHeight;
    if cells != [] {
      var rest := cells[..|cells| - 1];
      BoxByAxis(st, rest);
      assert Xs(cells)[..|rest|] == Xs(rest) && Ys(cells)[..|rest|] == Ys(rest);
    }
  }

  predicate Around(ns: seq<int>, size: nat, lo: int, hi: int) {
    forall i | 0 <= i < |ns| :: lo <= ns[i] && ns[i] + size - 1 <= hi
  }

  ghost predicate Tightest(ns: seq<int>, size: nat, lo: int, hi: int) {
    Around(ns, size, lo, hi) && forall l, h | Around(ns, size, l, h) :: l <= lo && hi <= h
  }

  /** Being the smallest box is a matter of each axis. */
  lemma SmallestByAxis(st: Style, b: Box, cells: seq<Pixel>)
    ensures Smallest(st, b, cells)
       <==> Tightest(Xs(cells), CellWidth(st), b.minx, b.maxx) && Tightest(Ys(cells), CellHeight(st), b.miny, b.maxy)
  {
    hide CellWidth, CellHeight, Encloses, Around;
    forall o: Box
      ensures Encloses(st, o, cells)
         <==> Around(Xs(cells), CellWidth(st), o.minx, o.maxx) && Around(Ys(cells), CellHeight(st), o.miny, o.maxy)
    {
      EnclosesByAxis(st, o, cells);
    }
    if Smallest(st, b, cells) {
      forall l, h | Around(Xs(cells), CellWidth(st), l, h) ensures l <= b.minx && b.maxx <= h {
        assert Encloses(st, b.(minx := l, maxx := h), cells);
      }
      forall l, h | Around(Ys(cells), CellHeight(st), l, h) ensures l <= b.miny && b.maxy <= h {
        assert Encloses(st, b.(miny := l, maxy := h), cells);
      }
    }
  }

  lemma EnclosesByAxis(st: Style, o: Box, cells: seq<Pixel>)
    ensures Encloses(st, o, cells)
       <==> Around(Xs(cells), CellWidth(st), o.minx, o.maxx) && Around(Ys(cells), CellHeight(st), o.miny, o.maxy)
  {
    var xs, ys := Xs(cells), Ys(cells);
    assert forall i | 0 <= i < |cells| :: xs[i] == cells[i].x && ys[i] == cells[i].y;
    if Around(xs, CellWidth(st), o.minx, o.maxx) && Around(ys, CellHeight(st), o.miny, o.maxy) {
      assert forall i | 0 <= i < |cells| :: o.minx <= xs[i] && xs[i] + CellWidth(st) - 1 <= o.maxx;
      assert forall i | 0 <= i < |cells| :: o.miny <= ys[i] && ys[i] + CellHeight(st) - 1 <= o.maxy;
    }
  }

  // ----- when the rectangle is right ------------------------------------------------------

  /** Every character ends at a coordinate that is an `int16_t`. */
  predicate EndsFit(ns: seq<int>, size: nat) { forall i | 0 <= i < |ns| :: InInt16(ns[i] + size - 1) }

  /** Some character ends at coordinate -1, where the search for the maximum starts, or behind it. */
  predicate Reaches(ns: seq<int>, size: nat) { exists i | 0 <= i < |ns| :: ns[i] + size - 1 >= -1 }

  /** The characters are less than 65536 pixels wide, or high, together. */
  predicate SpanFits(ns: seq<int>, size: nat) {
    forall i, j | 0 <= i < |ns| && 0 <= j < |ns| :: ns[i] + size - 1 - ns[j] < 0xFFFF
  }

  predicate AxisFits(ns: seq<int>, size: nat) { EndsFit(ns, size) && Reaches(ns, size) && SpanFits(ns, size) }

  /** The bounds of the loop; if nothing wraps around they hold for every character, and each is met by one. */
  lemma {:induction false} BoundsMet(ns: seq<int>, size: nat) returns (i: nat, j: nat)
    requires ns != [] && forall k | 0 <= k < |ns| :: InInt16(ns[k])
    ensures i < |ns| && ns[i] == Lowest(ns) && forall k | 0 <= k < |ns| :: Lowest(ns) <= ns[k]
    ensures j < |ns| && InInt16(Highest(ns, size))
    ensures EndsFit(ns, size) ==>
      && Highest(ns, size) >= -1 && (forall k | 0 <= k < |ns| :: ns[k] + size - 1 <= Highest(ns, size))
      && (Highest(ns, size) == -1 || Highest(ns, size) == ns[j] + size - 1)
  {
    hide Int16;
    var n := |ns| - 1;
    i, j := n, n;
    if n > 0 {
      var rest := ns[..n];
      var k, l := BoundsMet(rest, size);
      assert forall m | 0 <= m < n :: ns[m] == rest[m];
      i := if ns[n] <= Lowest(rest) then n else k;
      j := if ns[n] + size - 1 > Highest(rest, size) then n else l;
    }
  }

  /** On one axis the returned edge and length are the tightest exactly if nothing wraps around and -1 is reached. */
  lemma AxisExact(ns: seq<int>, size: nat, start: int)
    requires ns != [] && 0 < size && forall k | 0 <= k < |ns| :: InInt16(ns[k])
    ensures var lo, hi := Lowest(ns), Highest(ns, size);
            Tightest(ns, size, Edge(lo, hi, start), Edge(lo, hi, start) + Length(lo, hi) - 1) <==> AxisFits(ns, size)
  {
    hide Lowest, Highest, Tightest, AxisFits;
    var lo, hi := Lowest(ns), Highest(ns, size);
    if AxisFits(ns, size) {
      AxisRight(ns, size);
    }
    if Tightest(ns, size, Edge(lo, hi, start), Edge(lo, hi, start) + Length(lo, hi) - 1) {
      AxisOnlyIf(ns, size, start);
    }
  }

  lemma AxisRight(ns: seq<int>, size: nat)
    requires ns != [] && 0 < size && (forall k | 0 <= k < |ns| :: InInt16(ns[k])) && AxisFits(ns, size)
    ensures var lo, hi := Lowest(ns), Highest(ns, size);
            Tightest(ns, size, lo, hi) && lo <= hi && Length(lo, hi) == hi - lo + 1
  {
    hide Lowest, Highest, Int16;
    var i, j := BoundsMet(ns, size);
    var k :| 0 <= k < |ns| && ns[k] + size - 1 >= -1;
    var lo, hi := Lowest(ns), Highest(ns, size);
    var top := if hi == -1 then k else j;
    assert ns[top] + size - 1 == hi;
    assert ns[top] + size - 1 - ns[i] < 0xFFFF;
  }

  lemma AxisOnlyIf(ns: seq<int>, size: nat, start: int)
    requires ns != [] && 0 < size && forall k | 0 <= k < |ns| :: InInt16(ns[k])
    requires var lo, hi := Lowest(ns), Highest(ns, size);
             Tightest(ns, size, Edge(lo, hi, start), Edge(lo, hi, start) + Length(lo, hi) - 1)
    ensures AxisFits(ns, size)
  {
    hide Lowest, Highest, Int16;
    var i, j := BoundsMet(ns, size);
    var lo, hi := Lowest(ns), Highest(ns, size);
    var end := Edge(lo, hi, start) + Length(lo, hi) - 1;
    assert Edge(lo, hi, start) <= ns[0] && ns[0] + size - 1 <= end;
    assert lo <= hi && end <= hi;
    assert EndsFit(ns, size);
    assert SpanFits(ns, size);
    assert !Reaches(ns, size) ==> Around(ns, size, lo, -2);
  }

  /**
   The rectangle of `getTextBounds` is the smallest box around the characters
   exactly if, in both directions, their ends and their extent fit in 16 bits
   and they reach -1, where the search for the maximum starts.
   */
  lemma BoundsExact(st: Style, start: Pixel, s: bytes)
    requires ValidStyle(st) && InRange(start) && Cells(st, start, s) != []
    ensures var cells := Cells(st, start, s);
            Smallest(st, Inside(Rectangle(BoxOf(st, cells), start)), cells)
            <==> AxisFits(Xs(cells), CellWidth(st)) && AxisFits(Ys(cells), CellHeight(st))
  {
    hide BoxOf, Lowest, Highest, Smallest, AxisFits, Tightest, Cells;
    var cells := Cells(st, start, s);
    CellsInRange(st, start, s);
    BoxByAxis(st, cells);
    SmallestByAxis(st, Inside(Rectangle(BoxOf(st, cells), start)), cells);
    AxisExact(Xs(cells), CellWidth(st), start.x);
    AxisExact(Ys(cells), CellHeight(st), start.y);
  }

  /** The first text for which it is not: two characters that are 65536 pixels apart have the width 0. */
  lemma WidthWraps(st: Style, s: bytes)
    requires st.sizeX == 1 && st.sizeY == 1 && !st.wrap && s == ['A' as int, 'B' as int]
    ensures var start := Pixel(0x7FFA, 0);
            var cells := Cells(st, start, s);
            && cells == [start, Pixel(-0x8000, 0)]
            && EndsFit(Xs(cells), 6) && Reaches(Xs(cells), 6) && !SpanFits(Xs(cells), 6)
            && Rectangle(BoxOf(st, cells), start) == Rect(-0x8000, 0, 0, 8)
  {
    var start, next := Pixel(0x7FFA, 0), Pixel(-0x8000, 0);
    assert Moved(st, start, s[0]) == next;
    assert s[1..] == [s[1]] && s[1..][1..] == [];
    var cells := Cells(st, start, s);
    assert Cells(st, next, s[1..]) == [next] + Cells(st, Moved(st, next, s[1]), []);
    assert cells == [start] + [next];
    var xs := Xs(cells);
    assert xs[0] == 0x7FFA && xs[1] == -0x8000;
    assert xs[0] + 6 - 1 - xs[1] == 0xFFFF;
    assert cells[..1] == [start] && [start][..0] == [];
    BoxExtended(st, [], start);
    BoxExtended(st, [start], next);
  }

  /**
   Two more: a character that ends one column behind 32767 takes the width
   with it, and one that ends a row behind it the height, from a start on the
   screen.
   */
  lemma WidthLost(st: Style, s: bytes)
    requires st.sizeX == 1 && st.sizeY == 1 && !st.wrap && s == ['A' as int, 'B' as int]
    ensures var start := Pixel(0x7FF5, 0);
            var cells := Cells(st, start, s);
            cells == [start, Pixel(0x7FFB, 0)] && Rectangle(BoxOf(st, cells), start) == Rect(0x7FF5, 0, 0, 8)
  {
    var start, next := Pixel(0x7FF5, 0), Pixel(0x7FFB, 0);
    assert Moved(st, start, s[0]) == next;
    assert s[1..] == [s[1]] && s[1..][1..] == [];
    assert Cells(st, next, s[1..]) == [next] + Cells(st, Moved(st, next, s[1]), []);
    assert Cells(st, start, s) == [start] + [next];
    BoxExtended(st, [], start);
    BoxExtended(st, [start], next);
  }

  lemma HeightLost(st: Style, s: bytes)
    requires st.sizeX == 1 && st.sizeY == 1 && !st.wrap && s == ['A' as int, NEWLINE, 'B' as int]
    ensures var start := Pixel(0, 0x7FF1);
            var cells := Cells(st, start, s);
            cells == [start, Pixel(0, 0x7FF9)] && Rectangle(BoxOf(st, cells), start) == Rect(0, 0x7FF1, 6, 0)
  {
    var start, next := Pixel(0, 0x7FF1), Pixel(0, 0x7FF9);
    var beside := Pixel(6, 0x7FF1);
    assert Moved(st, start, s[0]) == beside && Moved(st, beside, s[1]) == next;
    assert s[1..] == [s[1], s[2]] && s[1..][1..] == [s[2]] && [s[2]][1..] == [];
    assert Cells(st, next, [s[2]]) == [next] + Cells(st, Moved(st, next, s[2]), []);
    assert Cells(st, beside, s[1..]) == [] + Cells(st, next, [s[2]]);
    assert Cells(st, start, s) == [start] + [next];
    BoxExtended(st, [], start);
    BoxExtended(st, [start], next);
  }

  lemma NoText(st: Style, start: Pixel)
    ensures Finish(st, start, []) == start && Cells(st, start, []) == []
    ensures BoxOf(st, []) == Box(0x7FFF, 0x7FFF, -1, -1)
  {
  }

  lemma BoxExtended(st: Style, cells: seq<Pixel>, cell: Pixel)
    ensures BoxOf(st, cells + [cell]) == Grown(st, BoxOf(st, cells), cell)
  {
    assert (cells + [cell])[..|cells|] == cells;
  }

  /** The cursor stays in 16 bits. */
  predicate StaysInRange(st: Style, cursor: Pixel, s: bytes)
    decreases s
  {
    s != [] ==> InRange(Target(st, cursor, s[0])) && StaysInRange(st, Moved(st, cursor, s[0]), s[1..])
  }

  /** Where the cursor would be after a character without the wrap-around of `int16_t`. */
  function Target(st: Style, cursor: Pixel, c: byte): Pixel {
    if c == CARRIAGE_RETURN then cursor
    else if c == NEWLINE then Pixel(0, cursor.y + CellHeight(st))
    else if CellAt(st, cursor) == cursor then Pixel(cursor.x + CellWidth(st), cursor.y)
    else Pixel(CellWidth(st), cursor.y + CellHeight(st))
  }

  /** From a start on the screen, all characters are on it, or below or beside it. */
  lemma {:induction false} CellsNonNegative(st: Style, cursor: Pixel, s: bytes)
    requires ValidStyle(st) && 0 <= cursor.x <= 0x7FFF && 0 <= cursor.y <= 0x7FFF && StaysInRange(st, cursor, s)
    ensures forall i | 0 <= i < |Cells(st, cursor, s)| :: OnScreen(st, Cells(st, cursor, s)[i])
    decreases s
  {
    hide Int16;
    if s != [] {
      CellsNonNegative(st, Moved(st, cursor, s[0]), s[1..]);
    }
  }

  predicate OnScreen(st: Style, cell: Pixel) { 0 <= cell.x && Right(st, cell) < 0x7FFF && 0 <= cell.y <= 0x7FFF }

  /** There `getTextBounds` is right for every text whose last line fits in 16 bits. */
  lemma BoundsOnScreen(st: Style, cursor: Pixel, s: bytes)
    requires ValidStyle(st) && 0 <= cursor.x <= 0x7FFF && 0 <= cursor.y <= 0x7FFF && StaysInRange(st, cursor, s)
    requires Cells(st, cursor, s) != []
    ensures var cells := Cells(st, cursor, s);
            Smallest(st, Inside(Rectangle(BoxOf(st, cells), cursor)), cells) <==> EndsFit(Ys(cells), CellHeight(st))
  {
    hide Smallest, BoxOf, Cells, Xs, Ys;
    var cells := Cells(st, cursor, s);
    CellsNonNegative(st, cursor, s);
    BoundsExact(st, cursor, s);
    var xs, ys := Xs(cells), Ys(cells);
    AxisValues(cells);
    assert xs[0] + CellWidth(st) - 1 >= -1 && ys[0] + CellHeight(st) - 1 >= -1;
  }

  lemma AxisValues(cells: seq<Pixel>)
    ensures |Xs(cells)| == |Ys(cells)| == |cells|
    ensures forall i | 0 <= i < |cells| :: Xs(cells)[i] == cells[i].x && Ys(cells)[i] == cells[i].y
  {
  }
}
