/**
 * The renderer's canvas: a `width x height` raster of RGB pixels addressed
 * in a centred coordinate system (x grows to the right, y grows upwards),
 * and the iterator that enumerates the canvas coordinates row by row.
 *
 * Rust's `u32`/`i32` values are unbounded integers here; the casts, the
 * truncating division and put_pixel's screen-coordinate arithmetic are
 * written out with the wrap-around of a release build (a debug build
 * panics where that arithmetic overflows instead).
 */
module Canvas {
  import opened Wrappers

  type Byte = b: int | 0 <= b < 256

  /** `image::Rgb<u8>`. */
  datatype Color = Rgb(r: Byte, g: Byte, b: Byte)

  /** What `ImageBuffer::new` fills a fresh buffer with (all subpixels zero). */
  const Black: Color := Rgb(0, 0, 0)

  const U32_LIMIT: int := 0x1_0000_0000
  const I32_MIN: int := -0x8000_0000
  const I32_MAX: int := 0x7fff_ffff
  /** No half extent computed by the iterator reaches this magnitude. */
  const HALF_LIMIT: int := 0x4000_0000

  predicate IsU32(n: int) { 0 <= n < U32_LIMIT }
  predicate IsI32(n: int) { I32_MIN <= n <= I32_MAX }

  /** `n as i32` for a `u32` value: the same 32 bits read as two's complement. */
  function U32AsI32(n: int): (r: int)
    requires IsU32(n)
    ensures IsI32(r) && (r - n) % U32_LIMIT == 0
  {
    if n <= I32_MAX then n else n - U32_LIMIT
  }

  /** An `i32` addition or subtraction in a release build: the exact result wrapped into i32. */
  function WrapI32(n: int): (r: int)
    ensures IsI32(r) && (r - n) % U32_LIMIT == 0
  {
    (n - I32_MIN) % U32_LIMIT + I32_MIN
  }

  /** `n as u32` for an `i32` value: the same 32 bits read as unsigned. */
  function I32AsU32(n: int): (r: int)
    requires IsI32(n)
    ensures IsU32(r) && (r - n) % U32_LIMIT == 0
  {
    if 0 <= n then n else n + U32_LIMIT
  }

  /** Two u32 values congruent modulo 2^32 are equal. */
  lemma CongruentU32Equal(a: int, b: int)
    requires IsU32(a) && IsU32(b) && (a - b) % U32_LIMIT == 0
    ensures a == b
  {
  }

  /** `n / 2` on `i32`: the quotient rounded toward zero. */
  function HalfTowardZero(n: int): (r: int)
    ensures 0 <= n ==> 0 <= 2 * r <= n <= 2 * r + 1
    ensures n < 0 ==> 2 * r - 1 <= n <= 2 * r <= 0
  {
    if 0 <= n then n / 2 else -((-n) / 2)
  }

  /** The half extent `PixelsIterator::new` computes: `dim as i32 / 2`. */
  function IterHalf(dim: int): (h: int)
    requires IsU32(dim)
    ensures -HALF_LIMIT <= h < HALF_LIMIT
  {
    HalfTowardZero(U32AsI32(dim))
  }

  /** The half extent `put_pixel` computes: `(dim / 2) as i32`, a lossless cast. */
  function RangeHalf(dim: int): (h: int)
    requires IsU32(dim)
    ensures IsI32(h) && 0 <= h && 2 * h <= dim <= 2 * h + 1
  {
    dim / 2
  }

  /**
   * The two half extents agree on every dimension that fits in an `i32`;
   * above that the iterator's cast wraps and its half extent is not positive.
   */
  lemma HalvesAgree(dim: int)
    requires IsU32(dim)
    ensures dim <= I32_MAX ==> IterHalf(dim) == RangeHalf(dim)
    ensures I32_MAX < dim ==> IterHalf(dim) <= 0
  {
  }

  // ---------------------------------------------------------------------
  // Canvas coordinates and screen coordinates
  // ---------------------------------------------------------------------

  /** The coordinates `put_pixel` accepts: x in [-W/2, W/2) and y in (-H/2, H/2]. */
  predicate InRange(width: int, height: int, x: int, y: int)
    requires IsU32(width) && IsU32(height)
  {
    var rangeX, rangeY := RangeHalf(width), RangeHalf(height);
    !(x < -rangeX || x >= rangeX || y <= -rangeY || y > rangeY)
  }

  /**
   * Canvas to screen: `(W/2 + x, H/2 - y)`. The y axis flips because screen
   * rows grow downwards. Every accepted coordinate lands inside the buffer,
   * so the `as u32` casts are lossless and the buffer write is in bounds.
   */
  function ScreenPos(width: int, height: int, x: int, y: int): (p: (int, int))
    requires IsU32(width) && IsU32(height) && InRange(width, height, x, y)
    ensures 0 <= p.0 < width && 0 <= p.1 < height
  {
    (RangeHalf(width) + x, RangeHalf(height) - y)
  }

  /** Screen to canvas: the inverse of ScreenPos on the screen positions it reaches. */
  function CanvasPos(width: int, height: int, sx: int, sy: int): (c: (int, int))
    requires IsU32(width) && IsU32(height)
    requires 0 <= sx < 2 * RangeHalf(width) && 0 <= sy < 2 * RangeHalf(height)
    ensures InRange(width, height, c.0, c.1)
    ensures ScreenPos(width, height, c.0, c.1) == (sx, sy)
  {
    (sx - RangeHalf(width), RangeHalf(height) - sy)
  }

  /** ScreenPos reaches exactly the CanvasPos domain, and CanvasPos undoes it. */
  lemma ScreenPosRoundTrip(width: int, height: int, x: int, y: int)
    requires IsU32(width) && IsU32(height) && InRange(width, height, x, y)
    ensures var p := ScreenPos(width, height, x, y);
      && p.0 < 2 * RangeHalf(width) && p.1 < 2 * RangeHalf(height)
      && CanvasPos(width, height, p.0, p.1) == (x, y)
  {
  }

  /** Distinct accepted canvas coordinates never write the same screen pixel. */
  lemma ScreenPosInjective(width: int, height: int, x1: int, y1: int, x2: int, y2: int)
    requires IsU32(width) && IsU32(height)
    requires InRange(width, height, x1, y1) && InRange(width, height, x2, y2)
    requires ScreenPos(width, height, x1, y1) == ScreenPos(width, height, x2, y2)
    ensures x1 == x2 && y1 == y2
  {
  }

  /** An odd width leaves the last screen column unreachable, an odd height the last row. */
  lemma OddDimensionUnreachable(width: int, height: int, x: int, y: int)
    requires IsU32(width) && IsU32(height) && InRange(width, height, x, y)
    ensures width % 2 == 1 ==> ScreenPos(width, height, x, y).0 != width - 1
    ensures height % 2 == 1 ==> ScreenPos(width, height, x, y).1 != height - 1
  {
  }

  /**
   * put_pixel computes `range_x + x` and `range_y - y` in `i32` and casts
   * them to `u32`. In a release build the sums wrap, and the cast brings
   * back exactly the screen position.
   */
  lemma WrappedScreenPos(width: int, height: int, x: int, y: int)
    requires IsU32(width) && IsU32(height) && InRange(width, height, x, y)
    ensures var p := ScreenPos(width, height, x, y);
      && I32AsU32(WrapI32(RangeHalf(width) + x)) == p.0
      && I32AsU32(WrapI32(RangeHalf(height) - y)) == p.1
  {
    var p := ScreenPos(width, height, x, y);
    var sx, sy := I32AsU32(WrapI32(p.0)), I32AsU32(WrapI32(p.1));
    assert (sx - p.0) % U32_LIMIT == 0 by {
      CongruentTransitive(sx, WrapI32(p.0), p.0);
    }
    assert (sy - p.1) % U32_LIMIT == 0 by {
      CongruentTransitive(sy, WrapI32(p.1), p.1);
    }
    CongruentU32Equal(sx, p.0);
    CongruentU32Equal(sy, p.1);
  }

  lemma CongruentTransitive(a: int, b: int, c: int)
    requires (a - b) % U32_LIMIT == 0 && (b - c) % U32_LIMIT == 0
    ensures (a - c) % U32_LIMIT == 0
  {
    var k, l := (a - b) / U32_LIMIT, (b - c) / U32_LIMIT;
    assert a - b == k * U32_LIMIT && b - c == l * U32_LIMIT;
    assert a - c == (k + l) * U32_LIMIT;
  }

  /**
   * The sums stay within `i32` for every dimension up to 2^31 (they first
   * overflow at 2^31 + 2), so only a larger canvas makes a debug build
   * panic in put_pixel.
   */
  lemma ScreenSumsFitI32(width: int, height: int, x: int, y: int)
    requires IsU32(width) && IsU32(height) && InRange(width, height, x, y)
    ensures width <= 0x8000_0000 ==> IsI32(RangeHalf(width) + x)
    ensures height <= 0x8000_0000 ==> IsI32(RangeHalf(height) - y)
  {
  }

  /** A canvas 2^32 - 1 wide: the accepted x = 2^31 - 2 takes `range_x + x` past i32::MAX. */
  lemma ScreenSumOverflows()
    ensures IsU32(0xFFFF_FFFF) && IsU32(2) && InRange(0xFFFF_FFFF, 2, 0x7FFF_FFFE, 0)
    ensures !IsI32(RangeHalf(0xFFFF_FFFF) + 0x7FFF_FFFE)
  {
  }

  // ---------------------------------------------------------------------
  // The canvas object
  // ---------------------------------------------------------------------

  /** `Canvas`: the image being rendered. */
  class Canvas {
    const width: int
    const height: int
    /** `imgbuf`: the pixel at screen position (sx, sy) is `pixels[sx, sy]`. */
    const pixels: array2<Color>

    ghost predicate Valid()
    {
      IsU32(width) && IsU32(height) && pixels.Length0 == width && pixels.Length1 == height
    }

    /** `Canvas::new`: a zero-initialised `width x height` buffer. */
    constructor (width: int, height: int)
      requires IsU32(width) && IsU32(height)
      ensures Valid() && this.width == width && this.height == height && fresh(pixels)
      ensures forall sx, sy :: 0 <= sx < width && 0 <= sy < height ==> pixels[sx, sy] == Black
    {
      this.width := width;
      this.height := height;
      pixels := new Color[width, height]((sx, sy) => Black);
    }

    /**
     * `put_pixel`: writes `pixel` at canvas coordinate (x, y) when put_pixel
     * accepts it, and silently does nothing otherwise. Exactly one screen
     * pixel changes, so reading it back yields `pixel`.
     */
    method PutPixel(x: int, y: int, pixel: Color)
      requires Valid() && IsI32(x) && IsI32(y)
      modifies pixels
      ensures forall sx, sy :: 0 <= sx < width && 0 <= sy < height ==>
        pixels[sx, sy] ==
          if InRange(width, height, x, y) && ScreenPos(width, height, x, y) == (sx, sy)
          then pixel else old(pixels[sx, sy])
    {
      var rangeX := RangeHalf(width);
      var rangeY := RangeHalf(height);
      if x < -rangeX || x >= rangeX || y <= -rangeY || y > rangeY {
        return;
      }
      var screenX := I32AsU32(WrapI32(rangeX + x));
      var screenY := I32AsU32(WrapI32(rangeY - y));
      WrappedScreenPos(width, height, x, y);
      pixels[screenX, screenY] := pixel;
    }

    /** `iter_pixels`: a fresh iterator over this canvas's coordinates. */
    method IterPixels() returns (it: PixelsIterator)
      requires Valid()
      ensures fresh(it) && it.Valid()
      ensures it.halfW == IterHalf(width) && it.halfH == IterHalf(height)
      ensures it.x == -it.halfW && it.y == -it.halfH
    {
      it := new PixelsIterator(this);
    }
  }

  // ---------------------------------------------------------------------
  // The coordinate iterator
  // ---------------------------------------------------------------------

  /**
   * The bounds the iterator's fields keep. They leave room for every `+ 1`
   * the iterator performs, so none of its `i32` additions overflows.
   */
  predicate IterBounded(hw: int, hh: int, x: int, y: int)
  {
    && -HALF_LIMIT <= hw <= HALF_LIMIT && -HALF_LIMIT <= hh <= HALF_LIMIT
    && -HALF_LIMIT <= x <= HALF_LIMIT + 1 && -HALF_LIMIT <= y <= HALF_LIMIT
  }

  /**
   * The pairs that successive `next` calls yield from the state (x, y),
   * up to the first `None`.
   */
  function Emitted(hw: int, hh: int, x: int, y: int): seq<(int, int)>
    decreases hh - y, hw - x
  {
    if y >= hh then []
    else if x >= hw then [(-hw, y + 1)] + Emitted(hw, hh, -hw + 1, y + 1)
    else [(x, y)] + Emitted(hw, hh, x + 1, y)
  }

  /** `PixelsIterator`: walks the canvas coordinates row by row. */
  class PixelsIterator {
    const halfW: int
    const halfH: int
    var x: int
    var y: int

    ghost predicate Valid()
      reads this
    {
      IterBounded(halfW, halfH, x, y)
    }

    /** `PixelsIterator::new`: starts at the bottom-left corner (-W/2, -H/2). */
    constructor (canvas: Canvas)
      requires canvas.Valid()
      ensures Valid()
      ensures halfW == IterHalf(canvas.width) && halfH == IterHalf(canvas.height)
      ensures x == -halfW && y == -halfH
    {
      var hw := IterHalf(canvas.width);
      var hh := IterHalf(canvas.height);
      halfW, halfH := hw, hh;
      x, y := -hw, -hh;
    }

    /**
     * `next`: once y has reached H/2 the iterator is exhausted and stays
     * so; otherwise a finished row (x at W/2) wraps to the start of the next
     * row, the current pair is yielded and x advances.
     */
    method Next() returns (item: Option<(int, int)>)
      requires Valid()
      modifies this
      ensures Valid()
      ensures old(y) >= halfH ==> item == None && x == old(x) && y == old(y)
      ensures old(y) < halfH && old(x) >= halfW ==>
        item == Some((-halfW, old(y) + 1)) && x == -halfW + 1 && y == old(y) + 1
      ensures old(y) < halfH && old(x) < halfW ==>
        item == Some((old(x), old(y))) && x == old(x) + 1 && y == old(y)
      ensures old(Emitted(halfW, halfH, x, y))
        == (if item.Some? then [item.value] else []) + Emitted(halfW, halfH, x, y)
    {
      if y >= halfH {
        return None;
      }
      if x >= halfW {
        x := -halfW;
        y := y + 1;
      }
      item := Some((x, y));
      x := x + 1;
    }
  }

  /**
   * A `for (x, y) in canvas.iter_pixels()` loop, collecting what it is given:
   * `next` is called until it returns `None`.
   */
  method CollectPixels(canvas: Canvas) returns (items: seq<(int, int)>)
    requires canvas.Valid()
    ensures items == SweepPairs(canvas.width, canvas.height)
    ensures 2 <= canvas.width <= I32_MAX ==>
      items == SweepOrder(IterHalf(canvas.width), IterHalf(canvas.height))
  {
    var it := canvas.IterPixels();
    ghost var hw, hh := it.halfW, it.halfH;
    ghost var all := Emitted(hw, hh, it.x, it.y);
    items := [];
    var next := it.Next();
    while next.Some?
      invariant it.Valid() && it.halfW == hw && it.halfH == hh
      invariant next.None? ==> it.y >= hh
      invariant items + (if next.Some? then [next.value] else []) + Emitted(hw, hh, it.x, it.y) == all
      decreases |Emitted(hw, hh, it.x, it.y)| + (if next.Some? then 1 else 0)
    {
      items := items + [next.value];
      next := it.Next();
    }
    assert items == all;
    if 2 <= canvas.width <= I32_MAX {
      SweepPairsInOrder(canvas.width, canvas.height);
    }
  }

  // ---------------------------------------------------------------------
  // The order the iterator yields
  // ---------------------------------------------------------------------

  /** Every pair a fresh iterator over a `width x height` canvas yields. */
  function SweepPairs(width: int, height: int): seq<(int, int)>
    requires IsU32(width) && IsU32(height)
  {
    Emitted(IterHalf(width), IterHalf(height), -IterHalf(width), -IterHalf(height))
  }

  /**
   * On a canvas at least two pixels wide whose width fits in an `i32`, a
   * fresh iterator yields the sweep in SweepOrder.
   */
  lemma SweepPairsInOrder(width: int, height: int)
    requires IsU32(width) && IsU32(height) && 2 <= width <= I32_MAX
    ensures SweepPairs(width, height) == SweepOrder(IterHalf(width), IterHalf(height))
  {
    HalvesAgree(width);
    EmittedFromStart(IterHalf(width), IterHalf(height));
  }

  /** The pairs (x, y) for x = from .. hw-1, ascending. */
  function RowFrom(from: int, hw: int, y: int): seq<(int, int)>
    decreases hw - from
  {
    if from >= hw then [] else [(from, y)] + RowFrom(from + 1, hw, y)
  }

  /** Rows y = lo .. hi-1 in order, each with x = -hw .. hw-1 ascending. */
  function Rows(hw: int, lo: int, hi: int): seq<(int, int)>
    decreases hi - lo
  {
    if lo >= hi then [] else RowFrom(-hw, hw, lo) + Rows(hw, lo + 1, hi)
  }

  /**
   * The sweep a fresh iterator performs when hw >= 1: the rows
   * y = -hh .. hh-1, then one extra pair (-hw, hh).
   */
  function SweepOrder(hw: int, hh: int): seq<(int, int)>
  {
    if hh <= 0 then [] else Rows(hw, -hh, hh) + [(-hw, hh)]
  }

  lemma {:induction false} EmittedAlongRow(hw: int, hh: int, x: int, y: int)
    requires y < hh && x <= hw
    ensures Emitted(hw, hh, x, y) == RowFrom(x, hw, y) + Emitted(hw, hh, hw, y)
    decreases hw - x
  {
    if x < hw {
      EmittedAlongRow(hw, hh, x + 1, y);
    }
  }

  lemma {:induction false} EmittedAfterRow(hw: int, hh: int, y: int)
    requires 1 <= hw && y < hh
    ensures Emitted(hw, hh, hw, y) == Rows(hw, y + 1, hh) + [(-hw, hh)]
    decreases hh - y
  {
    if y + 1 < hh {
      EmittedAlongRow(hw, hh, -hw + 1, y + 1);
      EmittedAfterRow(hw, hh, y + 1);
    }
  }

  /**
   * From `new`, successive `next` calls yield the rows y = -hh .. hh-1 in
   * order, each with x = -hw .. hw-1 ascending, then the extra pair
   * (-hw, hh), and then `None`.
   */
  lemma EmittedFromStart(hw: int, hh: int)
    requires 1 <= hw
    ensures Emitted(hw, hh, -hw, -hh) == SweepOrder(hw, hh)
  {
    if 0 < hh {
      var bottom := -hh;
      var first, rest := RowFrom(-hw, hw, bottom), Rows(hw, bottom + 1, hh);
      assert Emitted(hw, hh, -hw, bottom) == first + Emitted(hw, hh, hw, bottom) by {
        EmittedAlongRow(hw, hh, -hw, bottom);
      }
      assert Emitted(hw, hh, hw, bottom) == rest + [(-hw, hh)] by {
        EmittedAfterRow(hw, hh, bottom);
      }
      assert Rows(hw, bottom, hh) == first + rest;
      assert first + (rest + [(-hw, hh)]) == (first + rest) + [(-hw, hh)];
    }
  }

  lemma {:induction false} RowFromLength(from: int, hw: int, y: int)
    requires from <= hw
    ensures |RowFrom(from, hw, y)| == hw - from
    decreases hw - from
  {
    if from < hw {
      RowFromLength(from + 1, hw, y);
    }
  }

  lemma {:induction false} RowsLength(hw: int, lo: int, hi: int)
    requires 0 <= hw && lo <= hi
    ensures |Rows(hw, lo, hi)| == 2 * hw * (hi - lo)
    decreases hi - lo
  {
    if lo < hi {
      RowFromLength(-hw, hw, lo);
      RowsLength(hw, lo + 1, hi);
    }
  }

  /** A fresh iterator yields `4 * hw * hh` grid pairs plus the one extra pair. */
  lemma SweepOrderLength(hw: int, hh: int)
    requires 1 <= hw && 1 <= hh
    ensures |SweepOrder(hw, hh)| == 4 * hw * hh + 1
  {
    RowsLength(hw, -hh, hh);
  }

  lemma {:induction false} RowFromMembership(from: int, hw: int, y: int, p: (int, int))
    ensures p in RowFrom(from, hw, y) <==> p.1 == y && from <= p.0 < hw
    decreases hw - from
  {
    if from < hw {
      RowFromMembership(from + 1, hw, y, p);
    }
  }

  /** The rows hold exactly the grid pairs with -hw <= x < hw and lo <= y < hi. */
  lemma {:induction false} RowsMembership(hw: int, lo: int, hi: int, p: (int, int))
    ensures p in Rows(hw, lo, hi) <==> lo <= p.1 < hi && -hw <= p.0 < hw
    decreases hi - lo
  {
    if lo < hi {
      RowFromMembership(-hw, hw, lo, p);
      RowsMembership(hw, lo + 1, hi, p);
    }
  }

  /** p comes strictly before q in row-major order (by y, then by x). */
  predicate RowMajorBefore(p: (int, int), q: (int, int))
  {
    p.1 < q.1 || (p.1 == q.1 && p.0 < q.0)
  }

  predicate StrictlyRowMajor(s: seq<(int, int)>)
  {
    forall i, j :: 0 <= i < j < |s| ==> RowMajorBefore(s[i], s[j])
  }

  lemma ConcatRowMajor(a: seq<(int, int)>, b: seq<(int, int)>)
    requires StrictlyRowMajor(a) && StrictlyRowMajor(b)
    requires forall p, q :: p in a && q in b ==> RowMajorBefore(p, q)
    ensures StrictlyRowMajor(a + b)
  {
    forall i, j | 0 <= i < j < |a + b|
      ensures RowMajorBefore((a + b)[i], (a + b)[j])
    {
      if j < |a| {
        assert (a + b)[i] == a[i] && (a + b)[j] == a[j];
      } else if i < |a| {
        assert (a + b)[i] in a && (a + b)[j] in b;
      } else {
        assert (a + b)[i] == b[i - |a|] && (a + b)[j] == b[j - |a|];
      }
    }
  }

  lemma {:induction false} RowFromRowMajor(from: int, hw: int, y: int)
    ensures StrictlyRowMajor(RowFrom(from, hw, y))
    decreases hw - from
  {
    if from < hw {
      RowFromRowMajor(from + 1, hw, y);
      forall q | q in RowFrom(from + 1, hw, y)
        ensures RowMajorBefore((from, y), q)
      {
        RowFromMembership(from + 1, hw, y, q);
      }
      ConcatRowMajor([(from, y)], RowFrom(from + 1, hw, y));
    }
  }

  lemma {:induction false} RowsRowMajor(hw: int, lo: int, hi: int)
    ensures StrictlyRowMajor(Rows(hw, lo, hi))
    decreases hi - lo
  {
    if lo < hi {
      RowFromRowMajor(-hw, hw, lo);
      RowsRowMajor(hw, lo + 1, hi);
      forall p, q | p in RowFrom(-hw, hw, lo) && q in Rows(hw, lo + 1, hi)
        ensures RowMajorBefore(p, q)
      {
        RowFromMembership(-hw, hw, lo, p);
        RowsMembership(hw, lo + 1, hi, q);
      }
      ConcatRowMajor(RowFrom(-hw, hw, lo), Rows(hw, lo + 1, hi));
    }
  }

  /** The sweep is strictly increasing in row-major order, so it yields no pair twice. */
  lemma SweepOrderRowMajor(hw: int, hh: int)
    requires 1 <= hw && 1 <= hh
    ensures StrictlyRowMajor(SweepOrder(hw, hh))
  {
    var rows, last := Rows(hw, -hh, hh), [(-hw, hh)];
    assert StrictlyRowMajor(rows) by {
      RowsRowMajor(hw, -hh, hh);
    }
    assert StrictlyRowMajor(rows + last) by {
      forall p, q | p in rows && q in last
        ensures RowMajorBefore(p, q)
      {
        RowsMembership(hw, -hh, hh, p);
      }
      ConcatRowMajor(rows, last);
    }
    assert SweepOrder(hw, hh) == rows + last;
  }

  /** The sweep holds exactly the grid [-hw, hw) x [-hh, hh) and the extra pair (-hw, hh). */
  lemma SweepOrderMembers(hw: int, hh: int, p: (int, int))
    requires 1 <= hw && 1 <= hh
    ensures p in SweepOrder(hw, hh) <==>
      (-hw <= p.0 < hw && -hh <= p.1 < hh) || p == (-hw, hh)
  {
    var rows := Rows(hw, -hh, hh);
    RowsMembership(hw, -hh, hh, p);
    assert SweepOrder(hw, hh) == rows + [(-hw, hh)];
  }

  // ---------------------------------------------------------------------
  // The iterator and put_pixel together
  // ---------------------------------------------------------------------

  /**
   * put_pixel rejects every pair the iterator yields in the bottom row
   * y = -H/2, whatever the canvas size. On a canvas at least two pixels
   * wide it accepts every other pair, the extra pair (-W/2, H/2) included.
   */
  lemma SweepAcceptance(width: int, height: int)
    requires IsU32(width) && IsU32(height)
    ensures forall p :: p in SweepPairs(width, height) && p.1 == -IterHalf(height) ==>
      !InRange(width, height, p.0, p.1)
    ensures 2 <= width <= I32_MAX ==> forall p :: p in SweepPairs(width, height) ==>
      (InRange(width, height, p.0, p.1) <==> p.1 != -IterHalf(height))
  {
    HalvesAgree(width);
    HalvesAgree(height);
    var hw, hh := IterHalf(width), IterHalf(height);
    if 0 < hh && 2 <= width <= I32_MAX {
      EmittedFromStart(hw, hh);
      forall p | p in SweepPairs(width, height)
        ensures InRange(width, height, p.0, p.1) <==> p.1 != -hh
      {
        SweepOrderMembers(hw, hh, p);
      }
    }
  }

  /**
   * Screen pixel (sx, sy) is written when every pair the iterator yields is
   * passed to put_pixel, as the render loop does.
   */
  ghost predicate SweepWrites(width: int, height: int, sx: int, sy: int)
    requires IsU32(width) && IsU32(height)
  {
    exists p :: p in SweepPairs(width, height) && InRange(width, height, p.0, p.1)
      && ScreenPos(width, height, p.0, p.1) == (sx, sy)
  }

  /**
   * The screen pixels a full sweep writes: every column of the even part of
   * the buffer in screen rows 1 .. 2*(H/2)-1, and in the top screen row only
   * the corner (0, 0), written by the extra pair.
   */
  lemma SweepCoverage(width: int, height: int, sx: int, sy: int)
    requires 2 <= width <= I32_MAX && 2 <= height <= I32_MAX
    requires 0 <= sx < width && 0 <= sy < height
    ensures SweepWrites(width, height, sx, sy) <==>
      sx < 2 * RangeHalf(width) && sy < 2 * RangeHalf(height) && (1 <= sy || sx == 0)
  {
    if SweepWrites(width, height, sx, sy) {
      WrittenPixelCovered(width, height, sx, sy);
    }
    if sx < 2 * RangeHalf(width) && sy < 2 * RangeHalf(height) && (1 <= sy || sx == 0) {
      CoveredPixelWritten(width, height, sx, sy);
    }
  }

  lemma WrittenPixelCovered(width: int, height: int, sx: int, sy: int)
    requires 2 <= width <= I32_MAX && 2 <= height <= I32_MAX
    requires SweepWrites(width, height, sx, sy)
    ensures sx < 2 * RangeHalf(width) && sy < 2 * RangeHalf(height) && (1 <= sy || sx == 0)
  {
    HalvesAgree(height);
    SweepPairsInOrder(width, height);
    var p :| p in SweepPairs(width, height) && InRange(width, height, p.0, p.1)
      && ScreenPos(width, height, p.0, p.1) == (sx, sy);
    SweepOrderMembers(IterHalf(width), IterHalf(height), p);
  }

  lemma CoveredPixelWritten(width: int, height: int, sx: int, sy: int)
    requires 2 <= width <= I32_MAX && 2 <= height <= I32_MAX
    requires 0 <= sx < 2 * RangeHalf(width) && 0 <= sy < 2 * RangeHalf(height) && (1 <= sy || sx == 0)
    ensures SweepWrites(width, height, sx, sy)
  {
    HalvesAgree(height);
    SweepPairsInOrder(width, height);
    var p := CanvasPos(width, height, sx, sy);
    SweepOrderMembers(IterHalf(width), IterHalf(height), p);
    assert p in SweepPairs(width, height);
  }
}
