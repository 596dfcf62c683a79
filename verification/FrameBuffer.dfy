/** The SUN-1 black and white graphics board as its driver sees it: 1024 by 1024
    pixels, four pairs of coordinate registers selected by address bits, a
    raster function, and reads that go through a one-word FIFO. */
module FrameBuffer {

  const SIZE := 1024

  /** Sixteen pixels, the leftmost first. */
  type Word = w: seq<bool> | |w| == 16 witness seq(16, i => false)

  /** Shifts the pixels to the left. */
  function ShiftLeft(w: Word, n: int): Word
    requires 0 <= n
  {
    seq(16, i requires 0 <= i < 16 => i + n < 16 && w[i + n])
  }

  /** A raster function: what becomes of a pixel, by source and destination. */
  datatype Function = Function(neither: bool, dest: bool, source: bool, both: bool) {
    function Apply(s: bool, d: bool): bool {
      if s then (if d then both else source) else (if d then dest else neither)
    }
  }

  /** GXSOURCE. */
  const COPY := Function(false, false, true, true)

  /** A rectangle of the screen that clips and shifts what is drawn. */
  datatype ViewPort = ViewPort(left: int, top: int, width: int, height: int) {
    ghost predicate OnBoard() {
      0 <= left && 0 <= top && left + width <= SIZE && top + height <= SIZE
    }
  }

  // ----- addresses -----

  const SELECT_Y := 0x800
  const SET_1 := 0x1000
  const SOURCE := 0x8000
  const UPDATE := 0x1_0000

  /** Where the driver reads and writes: the X and Y registers of set 1 for the
      source, those of set 0 for the destination. */
  const XS := SET_1
  const YS := SOURCE + SET_1 + SELECT_Y
  const XD := 0
  const YD := SOURCE + UPDATE + SELECT_Y

  /** Where it writes when a row is fixed: the X register starts the update. */
  const TXD := SOURCE + UPDATE
  const TYD := SELECT_Y


  function Coordinate(a: int): int { a / 2 % SIZE }

  predicate SelectsY(a: int) { a / SELECT_Y % 2 == 1 }

  function RegisterSet(a: int): int { a / SET_1 % 4 }

  predicate LoadsSource(a: int) { a / 0x4000 % 4 == 2 }

  predicate Updates(a: int) { a / UPDATE % 2 == 1 }

  lemma DecodeX(x: int)
    requires 0 <= x < SIZE
    ensures Coordinate(XS + 2 * x) == x == Coordinate(XD + 2 * x)
    ensures !SelectsY(XS + 2 * x) && !SelectsY(XD + 2 * x)
    ensures RegisterSet(XS + 2 * x) == 1 && RegisterSet(XD + 2 * x) == 0
    ensures !LoadsSource(XS + 2 * x) && !LoadsSource(XD + 2 * x) && !Updates(XS + 2 * x) && !Updates(XD + 2 * x)
  {
  }

  lemma DecodeY(y: int)
    requires 0 <= y < SIZE
    ensures Coordinate(YS + 2 * y) == y == Coordinate(YD + 2 * y)
    ensures SelectsY(YS + 2 * y) && SelectsY(YD + 2 * y)
    ensures RegisterSet(YS + 2 * y) == 1 && RegisterSet(YD + 2 * y) == 0
    ensures LoadsSource(YD + 2 * y) && Updates(YD + 2 * y)
  {
  }

  /** One beyond either end of the Y addresses of the source other registers are
      loaded: X1 with 1023 above the board, X2 with 0 below it. */
  lemma DecodeBeyond()
    ensures !SelectsY(YS - 2) && RegisterSet(YS - 2) == 1
    ensures !SelectsY(YS + 2 * SIZE) && RegisterSet(YS + 2 * SIZE) == 2
  {
  }

  lemma DecodeT(p: int)
    requires 0 <= p < SIZE
    ensures Coordinate(TXD + 2 * p) == p == Coordinate(TYD + 2 * p)
    ensures !SelectsY(TXD + 2 * p) && SelectsY(TYD + 2 * p)
    ensures RegisterSet(TXD + 2 * p) == 0 == RegisterSet(TYD + 2 * p)
    ensures LoadsSource(TXD + 2 * p) && Updates(TXD + 2 * p)
    ensures !LoadsSource(TYD + 2 * p) && !Updates(TYD + 2 * p)
  {
  }

  class Board {
    const pixels: array2<bool>
    var x: seq<int>
    var y: seq<int>
    var width: int
    var op: Function
    var source: Word
    var fifo: Word

    ghost predicate Valid()
      reads this
    {
      && pixels.Length0 == SIZE && pixels.Length1 == SIZE
      && |x| == 4 && (forall i :: 0 <= i < 4 ==> 0 <= x[i] < SIZE)
      && |y| == 4 && (forall i :: 0 <= i < 4 ==> 0 <= y[i] < SIZE)
      && 0 <= width <= 16
    }

    constructor ()
      ensures Valid() && fresh(pixels)
    {
      pixels := new bool[SIZE, SIZE]((i, j) => false);
      x, y := [0, 0, 0, 0], [0, 0, 0, 0];
      width := 16;
      op := COPY;
      source, fifo := seq(16, i => false), seq(16, i => false);
    }

    /** The word of pixels that starts at a point, wrapping round at the right. */
    function WordAt(px: int, py: int): (w: Word)
      requires Valid() && 0 <= px < SIZE && 0 <= py < SIZE
      reads this, pixels
      ensures forall i :: 0 <= i < 16 ==> w[i] == pixels[(px + i) % SIZE, py]
    {
      seq(16, i requires 0 <= i < 16 && Valid() reads this, pixels => pixels[(px + i) % SIZE, py])
    }

    /** Loads the coordinate register that the address selects. */
    method Load(a: int)
      requires Valid()
      modifies this`x, this`y
      ensures Valid()
      ensures if SelectsY(a) then x == old(x) && y == old(y)[RegisterSet(a) := Coordinate(a)]
              else y == old(y) && x == old(x)[RegisterSet(a) := Coordinate(a)]
    {
      if SelectsY(a) {
        y := y[RegisterSet(a) := Coordinate(a)];
      } else {
        x := x[RegisterSet(a) := Coordinate(a)];
      }
    }

    /** A read gives the word that the read before it fetched, and fetches one. */
    method Read(a: int) returns (w: Word)
      requires Valid()
      modifies this`x, this`y, this`fifo
      ensures Valid() && w == old(fifo)
      ensures if SelectsY(a) then x == old(x) && y == old(y)[RegisterSet(a) := Coordinate(a)]
              else y == old(y) && x == old(x)[RegisterSet(a) := Coordinate(a)]
      ensures fifo == WordAt(x[RegisterSet(a)], y[RegisterSet(a)])
    {
      w := fifo;
      Load(a);
      fifo := WordAt(x[RegisterSet(a)], y[RegisterSet(a)]);
    }

    /** A write can load the source register and change the leftmost `width`
        pixels at the selected point. */
    method Write(a: int, w: Word)
      requires Valid()
      modifies this`x, this`y, this`source, pixels
      ensures Valid()
      ensures if SelectsY(a) then x == old(x) && y == old(y)[RegisterSet(a) := Coordinate(a)]
              else y == old(y) && x == old(x)[RegisterSet(a) := Coordinate(a)]
      ensures source == if LoadsSource(a) then w else old(source)
      ensures forall px, py :: 0 <= px < SIZE && 0 <= py < SIZE ==>
                var k := (px - x[RegisterSet(a)]) % SIZE;
                pixels[px, py] == if Updates(a) && py == y[RegisterSet(a)] && k < width
                                  then op.Apply(source[k], old(pixels[px, py])) else old(pixels[px, py])
    {
      Load(a);
      if LoadsSource(a) {
        source := w;
      }
      if Updates(a) {
        var left, row := x[RegisterSet(a)], y[RegisterSet(a)];
        forall px | 0 <= px < SIZE && (px - left) % SIZE < width {
          pixels[px, row] := op.Apply(source[(px - left) % SIZE], pixels[px, row]);
        }
      }
    }

    /** GXwidth. Register X3 is clobbered. */
    method SetWidth(n: int)
      requires Valid() && 0 <= n <= 16
      modifies this`width, this`x
      ensures Valid() && width == n && x == old(x)[3 := 1]
    {
      width, x := n, x[3 := 1];
    }

    /** GXfunction. Register X3 is clobbered. */
    method SetFunction(f: Function)
      requires Valid()
      modifies this`op, this`x
      ensures Valid() && op == f && x == old(x)[3 := 0]
    {
      op, x := f, x[3 := 0];
    }

    // ----- the four accesses of the driver -----

    method TouchSource(px: int)
      requires Valid() && 0 <= px < SIZE
      modifies this`x, this`y, this`source, pixels
      ensures Valid() && x == old(x)[1 := px] && y == old(y)
      ensures forall i, j :: 0 <= i < SIZE && 0 <= j < SIZE ==> pixels[i, j] == old(pixels[i, j])
    {
      hide Coordinate, SelectsY, RegisterSet, LoadsSource, Updates;
      DecodeX(px);
      Write(XS + 2 * px, seq(16, i => false));
    }

    method TouchDest(px: int)
      requires Valid() && 0 <= px < SIZE
      modifies this`x, this`y, this`source, pixels
      ensures Valid() && x == old(x)[0 := px] && y == old(y)
      ensures forall i, j :: 0 <= i < SIZE && 0 <= j < SIZE ==> pixels[i, j] == old(pixels[i, j])
    {
      hide Coordinate, SelectsY, RegisterSet, LoadsSource, Updates;
      DecodeX(px);
      Write(XD + 2 * px, seq(16, i => false));
    }

    /** `*ysa`, where `ysa` may be just above or just below the board. */
    method FetchSource(py: int) returns (w: Word)
      requires Valid() && -1 <= py <= SIZE
      modifies this`x, this`y, this`fifo
      ensures Valid() && w == old(fifo) && x[0] == old(x[0])
      ensures 0 <= py < SIZE ==> x[1] == old(x[1]) && fifo == WordAt(x[1], py)
    {
      hide Coordinate, SelectsY, RegisterSet, LoadsSource, Updates;
      if 0 <= py < SIZE {
        DecodeY(py);
      } else {
        DecodeBeyond();
      }
      w := Read(YS + 2 * py);
    }

    /** `*yda = w`. */
    method StoreDest(py: int, w: Word)
      requires Valid() && 0 <= py < SIZE && x[0] + width <= SIZE
      modifies this`x, this`y, this`source, pixels
      ensures Valid() && x == old(x)
      ensures forall i, j :: 0 <= i < SIZE && 0 <= j < SIZE ==>
                pixels[i, j] == if j == py && x[0] <= i < x[0] + width
                                then op.Apply(w[i - x[0]], old(pixels[i, j])) else old(pixels[i, j])
    {
      hide Coordinate, SelectsY, RegisterSet, LoadsSource, Updates;
      DecodeY(py);
      Write(YD + 2 * py, w);
    }

    /** `*(TYD + py)`: fixes the row. */
    method TouchRow(py: int)
      requires Valid() && 0 <= py < SIZE
      modifies this`x, this`y, this`source, pixels
      ensures Valid() && y == old(y)[0 := py]
      ensures forall i, j :: 0 <= i < SIZE && 0 <= j < SIZE ==> pixels[i, j] == old(pixels[i, j])
    {
      hide Coordinate, SelectsY, RegisterSet, LoadsSource, Updates;
      DecodeT(py);
      Write(TYD + 2 * py, seq(16, i => false));
    }

    /** `*xda = w`, where `xda` is an X address. */
    method StoreRow(px: int, w: Word)
      requires Valid() && 0 <= px < SIZE && px + width <= SIZE
      modifies this`x, this`y, this`source, pixels
      ensures Valid() && y == old(y)
      ensures forall i, j :: 0 <= i < SIZE && 0 <= j < SIZE ==>
                pixels[i, j] == if j == y[0] && px <= i < px + width
                                then op.Apply(w[i - px], old(pixels[i, j])) else old(pixels[i, j])
    {
      hide Coordinate, SelectsY, RegisterSet, LoadsSource, Updates;
      DecodeT(px);
      Write(TXD + 2 * px, w);
    }

    /** What is on the screen. */
    ghost function Shot(): (s: Picture)
      requires Valid()
      reads this, pixels
      ensures Whole(s) && forall i, j :: 0 <= i < SIZE && 0 <= j < SIZE ==> s[i][j] == pixels[i, j]
    {
      seq(SIZE, i requires 0 <= i < SIZE && Valid() reads this, pixels =>
        seq(SIZE, j requires 0 <= j < SIZE && Valid() reads this, pixels => pixels[i, j]))
    }
  }

  /** A picture of the screen, column by column. */
  type Picture = seq<seq<bool>>

  ghost predicate Whole(s: Picture) {
    |s| == SIZE && forall i :: 0 <= i < SIZE ==> |s[i]| == SIZE
  }

  lemma SamePicture(s: Picture, t: Picture)
    requires Whole(s) && Whole(t) && forall i, j :: 0 <= i < SIZE && 0 <= j < SIZE ==> s[i][j] == t[i][j]
    ensures s == t
  {
    forall i | 0 <= i < SIZE ensures s[i] == t[i] {
      assert forall j :: 0 <= j < SIZE ==> s[i][j] == t[i][j];
    }
  }
}
