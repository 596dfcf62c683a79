/** Copying rectangles of the screen to memory and back. In memory a raster is
    stored in columns of sixteen-pixel words, one word for each row. */
module RasterSave {
  import opened CInt
  import opened FrameBuffer
  import opened Optional
  import opened RasterOp

  datatype Raster = Raster(bits: array<Word>, width: int, height: int)

  /** The size in bytes that callers allocate. */
  function BWSizeofRaster(w: int, h: int): int {
    (w + 15) / 16 * h * 2
  }

  /** Where the word of a pixel is. */
  function Index(h: int, x: int, y: int): int {
    x / 16 * h + y
  }

  /** The pixel is in the memory of the raster, be it beyond its width. */
  predicate Has(r: Raster, x: int, y: int) {
    0 <= x && 0 <= y < r.height && 0 <= Index(r.height, x, y) < r.bits.Length
  }

  function Pixel(r: Raster, x: int, y: int): bool
    requires Has(r, x, y)
    reads r.bits
  {
    r.bits[Index(r.height, x, y)][x % 16]
  }

  /** A raster with room for its words. */
  predicate Sized(r: Raster) {
    r.width >= 0 && r.height >= 0 && BWSizeofRaster(r.width, r.height) <= 2 * r.bits.Length
  }

  lemma ColumnFits(w: int, h: int, c: int, n: int)
    requires 0 <= h && 0 <= 16 * c < w && n >= (w + 15) / 16 * h
    ensures c * h + h <= n
  {
    assert c + 1 <= (w + 15) / 16;
    Times(c + 1, (w + 15) / 16, h);
  }

  /** Every pixel has its word within the size that callers allocate, and the last
      one needs all of it. */
  lemma IndexBelowSize(w: int, h: int, x: int, y: int)
    requires 0 <= x < w && 0 <= y < h
    ensures 0 <= Index(h, x, y) < BWSizeofRaster(w, h) / 2
    ensures x == w - 1 && y == h - 1 ==> Index(h, x, y) == BWSizeofRaster(w, h) / 2 - 1
  {
    ColumnFits(w, h, x / 16, (w + 15) / 16 * h);
    Times(0, x / 16, h);
    assert (w - 1) / 16 + 1 == (w + 15) / 16;
    assert ((w - 1) / 16 + 1) * h == (w - 1) / 16 * h + h;
  }

  lemma SizedHasAll(r: Raster, x: int, y: int)
    requires Sized(r) && 0 <= x < r.width && 0 <= y < r.height
    ensures Has(r, x, y)
  {
    IndexBelowSize(r.width, r.height, x, y);
  }

  /** The words of one column from row `y0` on. */
  lemma ColumnIndex(h: int, c: int, y0: int, n: int, x: int, y: int)
    requires 0 <= y0 && 0 <= n && y0 + n <= h && 0 <= y < h && 0 <= x && 0 <= c
    ensures c * h + y0 <= Index(h, x, y) < c * h + y0 + n <==> x / 16 == c && y0 <= y < y0 + n
  {
    if x / 16 < c {
      Times(x / 16 + 1, c, h);
    } else if x / 16 > c {
      Times(c + 1, x / 16, h);
    }
  }

  // ----- masks -----

  /** The `n` rightmost pixels of a word. */
  function Mask(n: int): (m: Word) {
    seq(16, i => i >= 16 - n)
  }

  function And(a: Word, b: Word): Word { seq(16, i requires 0 <= i < 16 => a[i] && b[i]) }

  function Or(a: Word, b: Word): Word { seq(16, i requires 0 <= i < 16 => a[i] || b[i]) }

  function Not(a: Word): Word { seq(16, i requires 0 <= i < 16 => !a[i]) }

  /** The pixels of `w` selected by the mask, the others of `d`. */
  function Merge(w: Word, d: Word, sm: Word): Word {
    seq(16, i requires 0 <= i < 16 => if sm[i] then w[i] else d[i])
  }

  lemma MergeIs(w: Word, d: Word, sm: Word)
    ensures Or(And(w, sm), And(d, Not(sm))) == Merge(w, d, sm)
  {
  }

  // ----- screen to memory -----

  /** One word column from the screen, of the pixels in `sm` only. */
  method SaveColumn(b: Board, bits: array<Word>, da: int, xsa: int, ys: int, height: int, sm: Word)
    requires b.Valid() && 0 <= xsa < SIZE && 0 <= ys && height > 0 && ys + height <= SIZE
    requires 0 <= da && da + height <= bits.Length
    modifies b`x, b`y, b`source, b`fifo, b.pixels, bits
    ensures b.Valid()
    ensures forall i, j :: 0 <= i < SIZE && 0 <= j < SIZE ==> b.pixels[i, j] == old(b.pixels[i, j])
    ensures forall k :: 0 <= k < bits.Length ==>
              bits[k] == if da <= k < da + height then Merge(old(b.WordAt(xsa, ys + k - da)), old(bits[k]), sm)
                  else old(bits[k])
  {
    hide Merge, And, Or, Not;
    var dm := Not(sm);
    b.TouchSource(xsa);
    var _ := b.FetchSource(ys); // prime the pump
    var j := 0;
    while j < height
      invariant 0 <= j <= height && b.Valid()
      invariant forall i, r :: 0 <= i < SIZE && 0 <= r < SIZE ==> b.pixels[i, r] == old(b.pixels[i, r])
      invariant j < height ==> b.x[1] == xsa && b.fifo == old(b.WordAt(xsa, ys + j))
      invariant forall k :: 0 <= k < bits.Length ==>
                  bits[k] == if da <= k < da + j then Merge(old(b.WordAt(xsa, ys + k - da)), old(bits[k]), sm)
                      else old(bits[k])
    {
      var w := b.FetchSource(ys + j + 1);
      MergeIs(w, bits[da + j], sm);
      bits[da + j] := Or(And(w, sm), And(bits[da + j], dm));
      j := j + 1;
      assert j < height ==> b.fifo == old(b.WordAt(xsa, ys + j));
    }
  }

  /** Pixels `x0` to `x0 + n` of the raster, all in one word, from the screen
      position `xs`. The word read starts left of it, wrapping round. */
  method SaveRange(b: Board, r: Raster, x0: int, n: int, xs: int, yd: int, ys: int, height: int, sm: Word)
    requires b.Valid() && Sized(r) && height > 0 && 0 <= ys && ys + height <= SIZE && 0 <= yd && yd + height <= r.height
    requires 0 <= x0 && n > 0 && x0 % 16 + n <= 16 && x0 + n <= r.width && 0 <= xs && xs + n <= SIZE
    requires forall i :: 0 <= i < 16 ==> (sm[i] <==> x0 % 16 <= i < x0 % 16 + n)
    modifies b`x, b`y, b`source, b`fifo, b.pixels, r.bits
    ensures b.Valid()
    ensures forall i, j :: 0 <= i < SIZE && 0 <= j < SIZE ==> b.pixels[i, j] == old(b.pixels[i, j])
    ensures forall x, y :: Has(r, x, y) ==>
              Pixel(r, x, y) == if x0 <= x < x0 + n && yd <= y < yd + height
                                then old(b.pixels[xs + x - x0, ys + y - yd]) else old(Pixel(r, x, y))
  {
    var h := r.height;
    var c := x0 / 16;
    ColumnFits(r.width, h, c, r.bits.Length);
    Times(0, c, h);
    var xsa := (xs - x0 % 16) % SIZE;
    SaveColumn(b, r.bits, c * h + yd, xsa, ys, height, sm);
    forall x, y | Has(r, x, y)
      ensures Pixel(r, x, y) == if x0 <= x < x0 + n && yd <= y < yd + height
                                then old(b.pixels[xs + x - x0, ys + y - yd]) else old(Pixel(r, x, y))
    {
      ColumnIndex(h, c, yd, height, x, y);
      SameWord(x0, n, xs, x);
    }
  }

  lemma SameWord(x0: int, n: int, xs: int, x: int)
    requires 0 <= x0 && n > 0 && x0 % 16 + n <= 16 && 0 <= xs && xs + n <= SIZE && 0 <= x
    ensures x0 <= x < x0 + n <==> x / 16 == x0 / 16 && x0 % 16 <= x % 16 < x0 % 16 + n
    ensures x0 <= x < x0 + n ==> ((xs - x0 % 16) % SIZE + x % 16) % SIZE == xs + x - x0
  {
  }

  /** Some position of an interval is visible. */
  ghost predicate Meets(start: int, extent: int, limit: int) {
    extent > 0 && limit > 0 && start < limit && start + extent > 0
  }

  /** Clips one coordinate on the screen; the place in memory moves with it. */
  method ClipOne(s: int, d: int, extent: int, limit: int) returns (s': int, d': int, n: int)
    ensures s' - d' == s - d
    ensures Meets(s, extent, limit) ==> n > 0 && 0 <= s' && s' + n <= limit && d' >= d && d' + n <= d + extent
    ensures forall p :: Inside(p, s', n) <==> Inside(p, s, extent) && 0 <= p < limit
    ensures n > 0 ==> Meets(s, extent, limit)
  {
    s', d', n := s, d, extent;
    if s' < 0 {
      s', d', n := 0, d' - s', n + s';
    }
    var t := limit - s' - n;
    if t < 0 {
      n := n + t;
    }
  }

  lemma MaskIs(n: int)
    ensures forall i :: 0 <= i < 16 ==> Mask(n)[i] == (i >= 16 - n) && Not(Mask(n))[i] == (i < 16 - n)
  {
  }

  /** The first word, if the rectangle starts inside one: `left` pixels remain. */
  method SaveFirst(b: Board, xs: int, ys: int, xd: int, yd: int, r: Raster, width: int, height: int)
      returns (x: int, xsa: int, left: int)
    requires b.Valid() && Sized(r) && width > 0 && height > 0
    requires 0 <= xs && xs + width <= SIZE && 0 <= ys && ys + height <= SIZE
    requires 0 <= xd && xd + width <= r.width && 0 <= yd && yd + height <= r.height
    modifies b`x, b`y, b`source, b`fifo, b`width, b.pixels, r.bits
    ensures b.Valid() && 0 <= left <= width && x - xd == xsa - xs
    ensures left > 0 ==> x == xd + width - left && x % 16 == 0
    ensures forall i, j :: 0 <= i < SIZE && 0 <= j < SIZE ==> b.pixels[i, j] == old(b.pixels[i, j])
    ensures forall x, y :: Has(r, x, y) ==>
              Pixel(r, x, y) == if xd <= x < xd + width - left && yd <= y < yd + height
                                then old(b.pixels[xs + x - xd, ys + y - yd]) else old(Pixel(r, x, y))
  {
    hide Has, Pixel, Index, Sized, Mask, Not;
    x, xsa, left := xd, xs, width;
    var skew := xd % 16;
    if skew != 0 {
      var sm := Mask(16 - skew);
      MaskIs(16 - skew);
      MaskIs(16 - skew - width);
      if width < 16 - skew {
        sm := And(sm, Not(Mask(16 - skew - width)));
        left := 0;
      } else {
        left := width - (16 - skew);
      }
      SaveRange(b, r, xd, width - left, xs, yd, ys, height, sm);
      x, xsa := xd + 16 - skew, xs + 16 - skew;
    }
  }

  /** The words of a clipped rectangle: the rest of a first word, whole words, and
      the beginning of a last word. */
  method SaveWords(b: Board, xs: int, ys: int, xd: int, yd: int, r: Raster, width: int, height: int)
    requires b.Valid() && Sized(r) && width > 0 && height > 0
    requires 0 <= xs && xs + width <= SIZE && 0 <= ys && ys + height <= SIZE
    requires 0 <= xd && xd + width <= r.width && 0 <= yd && yd + height <= r.height
    modifies b`x, b`y, b`source, b`fifo, b`width, b.pixels, r.bits
    ensures b.Valid()
    ensures forall i, j :: 0 <= i < SIZE && 0 <= j < SIZE ==> b.pixels[i, j] == old(b.pixels[i, j])
    ensures forall x, y :: Has(r, x, y) ==>
              Pixel(r, x, y) == if xd <= x < xd + width && yd <= y < yd + height
                                then old(b.pixels[xs + x - xd, ys + y - yd]) else old(Pixel(r, x, y))
  {
    hide Has, Pixel, Index, Sized, Mask, Not;
    b.SetWidth(16);
    var x, xsa, left := SaveFirst(b, xs, ys, xd, yd, r, width, height);
    while left > 15
      invariant b.Valid() && 0 <= left <= width && xsa - x == xs - xd
      invariant left > 0 ==> x == xd + width - left && x % 16 == 0
      invariant forall i, j :: 0 <= i < SIZE && 0 <= j < SIZE ==> b.pixels[i, j] == old(b.pixels[i, j])
      invariant forall x, y :: Has(r, x, y) ==>
                  Pixel(r, x, y) == if xd <= x < xd + width - left && yd <= y < yd + height
                                    then old(b.pixels[xs + x - xd, ys + y - yd]) else old(Pixel(r, x, y))
    {
      MaskIs(16);
      SaveRange(b, r, x, 16, xsa, yd, ys, height, Mask(16));
      x, xsa, left := x + 16, xsa + 16, left - 16;
    }
    if left != 0 {
      var dm := Mask(16 - left);
      MaskIs(16 - left);
      SaveRange(b, r, x, left, xsa, yd, ys, height, Not(dm));
    }
  }

  /** Copies what is visible of a rectangle to memory; everything else in memory
      keeps its value, and the screen is unchanged. */
  method BWCopyScreenToMemory(b: Board, v: Option<ViewPort>, xs: int, ys: int, xd: int, yd: int, r: Raster, width: int,
          height: int)
    requires b.Valid() && Area(v).OnBoard() && (v.None? ==> Fits(xs, width) && Fits(ys, height))
    requires Sized(r) && 0 <= xd && xd + width <= r.width && 0 <= yd && yd + height <= r.height
    requires Meets(xs, width, Area(v).width) && Meets(ys, height, Area(v).height)
    modifies b`x, b`y, b`source, b`fifo, b`width, b.pixels, r.bits
    ensures b.Valid()
    ensures forall i, j :: 0 <= i < SIZE && 0 <= j < SIZE ==> b.pixels[i, j] == old(b.pixels[i, j])
    ensures forall x, y :: Has(r, x, y) ==>
              var a, i, j := Area(v), x - xd + xs, y - yd + ys;
              Pixel(r, x, y) == if Inside(i, xs, width) && 0 <= i < a.width && Inside(j, ys, height)
                  && 0 <= j < a.height
                                then old(b.pixels[i + a.left, j + a.top]) else old(Pixel(r, x, y))
  {
    hide Has, Pixel, Index, Sized, Inside;
    ghost var a := Area(v);
    var xs', xd', w := xs, xd, width;
    var ys', yd', h := ys, yd, height;
    WholeAxis(xs, width, a.width);
    WholeAxis(ys, height, a.height);
    if v.Some? {
      xs', xd', w := ClipOne(xs, xd, width, v.value.width);
      ys', yd', h := ClipOne(ys, yd, height, v.value.height);
      xs', ys' := xs' + v.value.left, ys' + v.value.top;
    }
    SaveWords(b, xs', ys', xd', yd', r, w, h);
    forall x, y | Has(r, x, y)
      ensures var i, j := x - xd + xs, y - yd + ys;
              Pixel(r, x, y) == if Inside(i, xs, width) && 0 <= i < a.width && Inside(j, ys, height)
                  && 0 <= j < a.height
                                then old(b.pixels[i + a.left, j + a.top]) else old(Pixel(r, x, y))
    {
      InsideMoved(x - xd + xs, xs' - a.left, w, xd' - (xs' - a.left));
      InsideMoved(y - yd + ys, ys' - a.top, h, yd' - (ys' - a.top));
    }
  }

  /** Without a view port nothing is clipped. */
  lemma WholeAxis(s: int, extent: int, limit: int)
    ensures 0 <= s && s + extent <= limit ==>
              forall p :: Inside(p, s, extent) <==> Inside(p, s, extent) && 0 <= p < limit
  {
  }

  lemma InsideMoved(p: int, s: int, extent: int, d: int)
    ensures Inside(p, s, extent) <==> s + d <= p + d < s + d + extent
  {
  }

  // ----- memory to screen -----

  /** One word column to the screen, its pixels shifted to the left by `skew`. */
  method RestoreColumn(b: Board, bits: array<Word>, sa: int, skew: int, xda: int, yd: int, height: int)
    requires b.Valid() && 0 <= xda < SIZE && xda + b.width <= SIZE && 0 <= skew && skew + b.width <= 16
    requires 0 <= yd && yd + height <= SIZE && 0 <= sa && sa + height <= bits.Length && height >= 0
    modifies b`x, b`y, b`source, b.pixels
    ensures b.Valid()
    ensures forall i, j :: 0 <= i < SIZE && 0 <= j < SIZE ==>
              b.pixels[i, j] == if xda <= i < xda + b.width && yd <= j < yd + height
                                then b.op.Apply(bits[sa + j - yd][i - xda + skew], old(b.pixels[i, j]))
                                    else old(b.pixels[i, j])
  {
    b.TouchDest(xda);
    var j := 0;
    while j < height
      invariant 0 <= j <= height && b.Valid() && b.x[0] == xda
      invariant forall i, k :: 0 <= i < SIZE && 0 <= k < SIZE ==>
                  b.pixels[i, k] == if xda <= i < xda + b.width && yd <= k < yd + j
                                    then b.op.Apply(bits[sa + k - yd][i - xda + skew], old(b.pixels[i, k]))
                                        else old(b.pixels[i, k])
    {
      b.StoreDest(yd + j, ShiftLeft(bits[sa + j], skew));
      j := j + 1;
    }
  }

  /** Pixel `x`, `y` of the raster, false if it has none there. */
  ghost function PixelOr(r: Raster, x: int, y: int): bool
    reads r.bits
  {
    Has(r, x, y) && Pixel(r, x, y)
  }

  lemma RangeWords(r: Raster, x0: int, y0: int, height: int)
    requires Sized(r) && 0 <= x0 < r.width && 0 <= y0 && 0 <= height && y0 + height <= r.height
    ensures 0 <= Index(r.height, x0, y0) && Index(r.height, x0, y0) + height <= r.bits.Length
  {
    ColumnFits(r.width, r.height, x0 / 16, r.bits.Length);
    Times(0, x0 / 16, r.height);
  }

  lemma RangePixel(r: Raster, x0: int, y0: int, n: int, d: int, e: int)
    requires Sized(r) && 0 <= x0 && n > 0 && x0 % 16 + n <= 16 && x0 + n <= r.width && 0 <= d < n
    requires 0 <= y0 && 0 <= e && y0 + e < r.height
    ensures 0 <= Index(r.height, x0, y0) + e < r.bits.Length
    ensures PixelOr(r, x0 + d, y0 + e) == r.bits[Index(r.height, x0, y0) + e][d + x0 % 16]
  {
    assert (x0 + d) / 16 == x0 / 16;
    SizedHasAll(r, x0 + d, y0 + e);
  }

  /** Pixels `x0` to `x0 + n` of the raster, all in one word, to the screen. */
  method RestoreRange(b: Board, r: Raster, x0: int, n: int, y0: int, xd: int, yd: int, height: int)
    requires b.Valid() && Sized(r) && height >= 0 && 0 <= yd && yd + height <= SIZE && 0 <= y0
             && y0 + height <= r.height
    requires 0 <= x0 && n > 0 && x0 % 16 + n <= 16 && x0 + n <= r.width && 0 <= xd && xd + n <= SIZE
    modifies b`x, b`y, b`source, b`width, b.pixels
    ensures b.Valid()
    ensures forall i, j :: 0 <= i < SIZE && 0 <= j < SIZE ==>
              b.pixels[i, j] == if xd <= i < xd + n && yd <= j < yd + height
                                then b.op.Apply(PixelOr(r, x0 + i - xd, y0 + j - yd), old(b.pixels[i, j]))
                                    else old(b.pixels[i, j])
  {
    RangeWords(r, x0, y0, height);
    hide PixelOr, Index, Sized;
    var sa := Index(r.height, x0, y0);
    b.SetWidth(n);
    RestoreColumn(b, r.bits, sa, x0 % 16, xd, yd, height);
    forall i, j | 0 <= i < SIZE && 0 <= j < SIZE && xd <= i < xd + n && yd <= j < yd + height
      ensures b.pixels[i, j] == b.op.Apply(PixelOr(r, x0 + i - xd, y0 + j - yd), old(b.pixels[i, j]))
    {
      RangePixel(r, x0, y0, n, i - xd, j - yd);
      assert x0 + (i - xd) == x0 + i - xd && y0 + (j - yd) == y0 + j - yd && sa + (j - yd) == sa + j - yd;
    }
  }

  /** The first word, if the rectangle starts inside one: `left` pixels remain. */
  method RestoreFirst(b: Board, xs: int, ys: int, r: Raster, xd: int, yd: int, width: int, height: int)
      returns (x: int, xda: int, left: int)
    requires b.Valid() && Sized(r) && width >= 0 && height >= 0 && (width > 0 || xs % 16 == 0)
    requires 0 <= xd && xd + width <= SIZE && 0 <= yd && yd + height <= SIZE
    requires 0 <= xs && xs + width <= r.width && 0 <= ys && ys + height <= r.height
    modifies b`x, b`y, b`source, b`width, b.pixels
    ensures b.Valid() && 0 <= left <= width && x - xs == xda - xd
    ensures left > 0 ==> x == xs + width - left && x % 16 == 0
    ensures forall i, j :: 0 <= i < SIZE && 0 <= j < SIZE ==>
              b.pixels[i, j] == if xd <= i < xd + width - left && yd <= j < yd + height
                                then b.op.Apply(PixelOr(r, xs + i - xd, ys + j - yd), old(b.pixels[i, j]))
                                    else old(b.pixels[i, j])
  {
    hide PixelOr, Sized;
    x, xda, left := xs, xd, width;
    var skew := xs % 16;
    if skew != 0 {
      var n := if width < 16 - skew then width else 16 - skew;
      left := width - n;
      RestoreRange(b, r, xs, n, ys, xd, yd, height);
      x, xda := xs + 16 - skew, xd + 16 - skew;
    }
  }

  /** The words of a clipped rectangle. */
  method RestoreWords(b: Board, xs: int, ys: int, r: Raster, xd: int, yd: int, width: int, height: int)
    requires b.Valid() && Sized(r) && width >= 0 && height >= 0 && (width > 0 || xs % 16 == 0)
    requires 0 <= xd && xd + width <= SIZE && 0 <= yd && yd + height <= SIZE
    requires 0 <= xs && xs + width <= r.width && 0 <= ys && ys + height <= r.height
    modifies b`x, b`y, b`source, b`width, b.pixels
    ensures b.Valid()
    ensures forall i, j :: 0 <= i < SIZE && 0 <= j < SIZE ==>
              b.pixels[i, j] == if xd <= i < xd + width && yd <= j < yd + height
                                then b.op.Apply(PixelOr(r, xs + i - xd, ys + j - yd), old(b.pixels[i, j]))
                                    else old(b.pixels[i, j])
  {
    hide PixelOr, Sized;
    var x, xda, left := RestoreFirst(b, xs, ys, r, xd, yd, width, height);
    while left > 0
      invariant b.Valid() && left <= width && x - xs == xda - xd
      invariant left > 0 ==> x == xs + width - left && x % 16 == 0
      invariant forall i, j :: 0 <= i < SIZE && 0 <= j < SIZE ==>
                  b.pixels[i, j] == if xd <= i < xd + width - left && i < xd + width && yd <= j < yd + height
                                    then b.op.Apply(PixelOr(r, xs + i - xd, ys + j - yd), old(b.pixels[i, j]))
                                        else old(b.pixels[i, j])
    {
      RestoreRange(b, r, x, if left >= 16 then 16 else left, ys, xda, yd, height);
      x, xda, left := x + 16, xda + 16, left - 16;
    }
  }

  /** Copies a rectangle of memory to where it is visible on the screen. */
  method BWCopyMemoryToScreen(b: Board, v: Option<ViewPort>, xs: int, ys: int, r: Raster, xd: int, yd: int, width: int,
          height: int)
    requires b.Valid() && Area(v).OnBoard() && Sized(r)
    requires v.None? ==> Fits(xd, width) && Fits(yd, height) && width >= 0 && height >= 0 && (width > 0 || xs % 16 == 0)
    requires 0 <= xs && xs + width <= r.width && 0 <= ys && ys + height <= r.height
    modifies b`x, b`y, b`source, b`width, b.pixels
    ensures b.Valid()
    ensures forall i, j :: 0 <= i < SIZE && 0 <= j < SIZE ==>
              var a := Area(v); var x, y := i - a.left, j - a.top;
              b.pixels[i, j] == if Inside(x, xd, width) && 0 <= x < a.width && Inside(y, yd, height)
                  && 0 <= y < a.height
                                then b.op.Apply(PixelOr(r, x - xd + xs, y - yd + ys), old(b.pixels[i, j]))
                                    else old(b.pixels[i, j])
  {
    hide PixelOr, Sized;
    var xs', xd', w := xs, xd, width;
    var ys', yd', h := ys, yd, height;
    ghost var a := Area(v);
    if v.Some? {
      xd', xs', w := ClipOne(xd, xs, width, v.value.width);
      yd', ys', h := ClipOne(yd, ys, height, v.value.height);
      xd', yd' := xd' + v.value.left, yd' + v.value.top;
    }
    if v.None? || (w > 0 && h > 0) {
      RestoreWords(b, xs', ys', r, xd', yd', w, h);
    }
    forall i, j | 0 <= i < SIZE && 0 <= j < SIZE
      ensures var x, y := i - a.left, j - a.top;
              b.pixels[i, j] == if Inside(x, xd, width) && 0 <= x < a.width && Inside(y, yd, height)
                  && 0 <= y < a.height
                                then b.op.Apply(PixelOr(r, x - xd + xs, y - yd + ys), old(b.pixels[i, j]))
                                    else old(b.pixels[i, j])
    {
      assert Inside(i - a.left, xd' - a.left, w) <==> Inside(i - a.left, xd, width) && 0 <= i - a.left < a.width;
      assert Inside(j - a.top, yd' - a.top, h) <==> Inside(j - a.top, yd, height) && 0 <= j - a.top < a.height;
    }
  }
}
