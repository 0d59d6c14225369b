/**
 The value side of pingy's pixel buffer: bytes, colours, the offset arithmetic of
 `get_index`, the partial-update rule of `set_rgba` and the visiting order of
 `each_point`, together with the facts the image class relies on.
 */
module Raster {

  /** One byte of the RGBA buffer. */
  type Byte = b: int | 0 <= b < 256

  datatype Option<T> = None | Some(value: T)

  /** The colour object that `get_rgba` builds from four consecutive bytes. */
  datatype Color = Color(r: Byte, g: Byte, b: Byte, a: Byte)

  /**
   The colour object a caller hands to `set_rgba`. A channel is `None` when the
   object has no such property or its value is not a number.
   */
  datatype PartialColor = PartialColor(r: Option<Byte>, g: Option<Byte>, b: Option<Byte>, a: Option<Byte>)

  /** The colour `create` fills a new image with: opaque green. */
  const Green := Color(0, 255, 0, 255)

  /**
   The longest buffer this model admits. Offsets below it survive the signed 32-bit
   shift in `get_index`; the source itself has no such guard, and above it the shift
   wraps (`IndexWrapsAbove`).
   */
  const MaxBufferLength := 0x7FFF_FFFF

  /** Channel k of a colour, in buffer order r, g, b, a. */
  function Channel(c: Color, k: nat): Byte
    requires k < 4
  {
    if k == 0 then c.r else if k == 1 then c.g else if k == 2 then c.b else c.a
  }

  /** Channel k of a partial colour, in buffer order r, g, b, a. */
  function Supplied(p: PartialColor, k: nat): Option<Byte>
    requires k < 4
  {
    if k == 0 then p.r else if k == 1 then p.g else if k == 2 then p.b else p.a
  }

  /**
   A colour object handed back to `set_rgba`: it supplies all four channels, so storing it
   over any pixel leaves exactly that colour.
   */
  function Full(c: Color): (p: PartialColor)
    ensures forall prev: Color :: Merge(prev, p) == c
  {
    PartialColor(Some(c.r), Some(c.g), Some(c.b), Some(c.a))
  }

  /** The colour a pixel holds after `set_rgba` stores `p` over `prev`. */
  function Merge(prev: Color, p: PartialColor): (c: Color)
    ensures forall k: nat :: k < 4 ==>
      Channel(c, k) == if Supplied(p, k).Some? then Supplied(p, k).value else Channel(prev, k)
  {
    Color(
      if p.r.Some? then p.r.value else prev.r,
      if p.g.Some? then p.g.value else prev.g,
      if p.b.Some? then p.b.value else prev.b,
      if p.a.Some? then p.a.value else prev.a)
  }

  /** Storing a colour object without any numeric channel leaves the pixel as it was. */
  lemma MergeNothing(prev: Color)
    ensures Merge(prev, PartialColor(None, None, None, None)) == prev
  {
  }

  /** Storing the same partial colour twice is the same as storing it once. */
  lemma MergeIdempotent(prev: Color, p: PartialColor)
    ensures Merge(Merge(prev, p), p) == Merge(prev, p)
  {
  }

  /** Storing only alpha keeps red, green and blue. */
  lemma MergeAlphaOnly(prev: Color, alpha: Byte)
    ensures Merge(prev, PartialColor(None, None, None, Some(alpha))) == prev.(a := alpha)
  {
  }

  // ---------------------------------------------------------------------------
  // get_index: JavaScript's `<<` works on signed 32-bit integers

  /** JavaScript's ToInt32: wrap an integer into the signed 32-bit range. */
  function ToInt32(v: int): (r: int)
    ensures -0x8000_0000 <= r < 0x8000_0000
    ensures (r - v) % 0x1_0000_0000 == 0
    ensures -0x8000_0000 <= v < 0x8000_0000 ==> r == v
  {
    var m := v % 0x1_0000_0000;
    if m < 0x8000_0000 then m else m - 0x1_0000_0000
  }

  /**
   `(width * y + x) << 2`, as JavaScript evaluates it: the left operand is converted
   to a signed 32-bit integer and the product wraps to one again.
   */
  function GetIndex(width: int, x: int, y: int): (i: int)
    ensures -0x8000_0000 <= i < 0x8000_0000
    ensures 0 <= width * y + x < 0x2000_0000 ==> i == 4 * (width * y + x)
  {
    ToInt32(ToInt32(width * y + x) * 4)
  }

  /** Where pixel (x, y) starts in a buffer laid out row after row, four bytes a pixel. */
  function Offset(width: nat, x: nat, y: nat): (o: nat)
    ensures o % 4 == 0
    ensures x < width ==> 4 * width * y <= o < 4 * width * (y + 1)
  {
    assert 4 * width * (y + 1) == 4 * width * y + 4 * width;
    4 * (width * y + x)
  }

  /** The linear pixel number width * y + x of an in-range coordinate is below width * height. */
  lemma {:induction false} LinearInRange(w: nat, h: nat, x: nat, y: nat)
    requires x < w && y < h
    ensures w * y + x < w * h
  {
    MulMonotone(w, y + 1, h);
  }

  /**
   For an in-range coordinate of an image whose buffer fits the allowed length,
   `get_index` is the offset `(width * y + x) * 4` and all four channels lie inside the buffer.
   */
  lemma {:induction false} IndexInBounds(w: nat, h: nat, x: nat, y: nat)
    requires x < w && y < h && w * h * 4 <= MaxBufferLength
    ensures GetIndex(w, x, y) == Offset(w, x, y)
    ensures Offset(w, x, y) + 3 < w * h * 4
  {
    OffsetInBounds(w, h, x, y);
  }

  /**
   The layout `get_index` evidently intends, with no bound on the image: the four bytes
   of an in-range pixel always lie inside the buffer.
   */
  lemma {:induction false} OffsetInBounds(w: nat, h: nat, x: nat, y: nat)
    requires x < w && y < h
    ensures Offset(w, x, y) + 3 < w * h * 4
  {
    LinearInRange(w, h, x, y);
  }

  /**
   The shift as written: a pixel number in [2^29, 2^30) gets the true offset minus 2^32,
   a negative index, so such a pixel is never read or written.
   */
  lemma IndexWrapsAbove(w: nat, x: nat, y: nat)
    requires 0x2000_0000 <= w * y + x < 0x4000_0000
    ensures GetIndex(w, x, y) == Offset(w, x, y) - 0x1_0000_0000
    ensures GetIndex(w, x, y) < 0
  {
    assert ToInt32(w * y + x) == w * y + x;
  }

  /**
   One instance of `IndexWrapsAbove`: in an image 32768 pixels wide, pixel (0, 16384) has
   number 2^29, and the shift sends its offset to -2^31.
   */
  lemma IndexWrapsBeyondBound()
    ensures GetIndex(0x8000, 0, 0x4000) == -0x8000_0000
  {
  }

  /** a * b grows with b. */
  lemma MulMonotone(a: nat, b: nat, c: nat)
    requires b <= c
    ensures a * b <= a * c
  {
    assert a * c == a * b + a * (c - b);
  }

  /** A pixel number w * y + x with x < w determines x and y. */
  lemma {:induction false} LinearUnique(w: nat, x1: nat, y1: nat, x2: nat, y2: nat)
    requires x1 < w && x2 < w
    requires w * y1 + x1 == w * y2 + x2
    ensures x1 == x2 && y1 == y2
  {
    if y1 < y2 {
      MulMonotone(w, y1 + 1, y2);
      assert false;
    } else if y2 < y1 {
      MulMonotone(w, y2 + 1, y1);
      assert false;
    }
  }

  /** Two different pixels of one image occupy disjoint four-byte windows. */
  lemma {:induction false} OffsetsDisjoint(w: nat, h: nat, x1: nat, y1: nat, x2: nat, y2: nat)
    requires x1 < w && y1 < h && x2 < w && y2 < h
    requires (x1, y1) != (x2, y2)
    ensures Offset(w, x1, y1) + 4 <= Offset(w, x2, y2) || Offset(w, x2, y2) + 4 <= Offset(w, x1, y1)
  {
    if w * y1 + x1 == w * y2 + x2 {
      LinearUnique(w, x1, y1, x2, y2);
    }
  }

  /** The pixel that byte j of a w-by-h buffer belongs to. */
  function PixelOf(w: nat, h: nat, j: nat): (xy: (nat, nat))
    requires j < w * h * 4
    ensures xy.0 < w && xy.1 < h
    ensures Offset(w, xy.0, xy.1) <= j < Offset(w, xy.0, xy.1) + 4
  {
    var p := j / 4;
    assert p < w * h;
    var x, y := p % w, p / w;
    assert w * y + x == p;
    assert y < h by {
      if h <= y {
        MulMonotone(w, h, y);
      }
    }
    (x, y)
  }

  // ---------------------------------------------------------------------------
  // Buffers as sequences of bytes

  /** The colour of pixel (x, y) of a w-by-h buffer: its four bytes, in order r, g, b, a. */
  function PixelAt(buf: seq<Byte>, w: nat, h: nat, x: nat, y: nat): (c: Color)
    requires |buf| == w * h * 4 && x < w && y < h
    ensures Offset(w, x, y) + 4 <= |buf|
    ensures forall k: nat :: k < 4 ==> Channel(c, k) == buf[Offset(w, x, y) + k]
  {
    LinearInRange(w, h, x, y);
    var i := Offset(w, x, y);
    Color(buf[i], buf[i + 1], buf[i + 2], buf[i + 3])
  }

  /** The buffer after pixel (x, y) of a w-by-h image is overwritten with colour c. */
  function WritePixel(buf: seq<Byte>, w: nat, h: nat, x: nat, y: nat, c: Color): (r: seq<Byte>)
    requires |buf| == w * h * 4 && x < w && y < h
    ensures |r| == |buf|
    ensures PixelAt(r, w, h, x, y) == c
    ensures forall j :: 0 <= j < |buf| && !(Offset(w, x, y) <= j < Offset(w, x, y) + 4) ==> r[j] == buf[j]
  {
    LinearInRange(w, h, x, y);
    var i := Offset(w, x, y);
    buf[i := c.r][i + 1 := c.g][i + 2 := c.b][i + 3 := c.a]
  }

  /** Writing one pixel leaves every other pixel of the image as it was. */
  lemma {:induction false} WriteKeepsOtherPixels(buf: seq<Byte>, w: nat, h: nat, x: nat, y: nat, c: Color, x': nat, y': nat)
    requires |buf| == w * h * 4 && x < w && y < h && x' < w && y' < h
    requires (x', y') != (x, y)
    ensures PixelAt(WritePixel(buf, w, h, x, y, c), w, h, x', y') == PixelAt(buf, w, h, x', y')
  {
    LinearInRange(w, h, x', y');
    OffsetsDisjoint(w, h, x, y, x', y');
  }

  /** Two buffers of one image that agree on every pixel are the same buffer. */
  lemma {:induction false} PixelsDetermineBuffer(b1: seq<Byte>, b2: seq<Byte>, w: nat, h: nat)
    requires |b1| == w * h * 4 && |b2| == w * h * 4
    requires forall x: nat, y: nat | x < w && y < h :: PixelAt(b1, w, h, x, y) == PixelAt(b2, w, h, x, y)
    ensures b1 == b2
  {
    forall j | 0 <= j < |b1|
      ensures b1[j] == b2[j]
    {
      var xy := PixelOf(w, h, j);
      var k: nat := j - Offset(w, xy.0, xy.1);
      assert PixelAt(b1, w, h, xy.0, xy.1) == PixelAt(b2, w, h, xy.0, xy.1);
      assert Channel(PixelAt(b1, w, h, xy.0, xy.1), k) == b1[j];
      assert Channel(PixelAt(b2, w, h, xy.0, xy.1), k) == b2[j];
    }
  }

  // ---------------------------------------------------------------------------
  // each_point

  /** The callback of `each_point`: `None` stands for a falsy return value. */
  type PointFn = (nat, nat, Color) -> Option<PartialColor>

  /** What `each_point` stores at (x, y): the callback's result, or else the colour it was given. */
  function Outcome(fn: PointFn, x: nat, y: nat, c: Color): (p: PartialColor)
    ensures fn(x, y, c).Some? ==> p == fn(x, y, c).value
    ensures fn(x, y, c).None? ==> Merge(c, p) == c
  {
    match fn(x, y, c)
    case Some(p) => p
    case None => Full(c)
  }

  /** The colour `each_point` leaves at (x, y) of a buffer that held `before`. */
  function Transform(before: seq<Byte>, w: nat, h: nat, fn: PointFn, x: nat, y: nat): (c: Color)
    requires |before| == w * h * 4 && x < w && y < h
    ensures fn(x, y, PixelAt(before, w, h, x, y)).None? ==> c == PixelAt(before, w, h, x, y)
    ensures fn(x, y, PixelAt(before, w, h, x, y)).Some? ==>
      c == Merge(PixelAt(before, w, h, x, y), fn(x, y, PixelAt(before, w, h, x, y)).value)
  {
    var c := PixelAt(before, w, h, x, y);
    Merge(c, Outcome(fn, x, y, c))
  }

  /** `after` is what one pass of `each_point` with `fn` makes of `before`. */
  ghost predicate Transformed(before: seq<Byte>, after: seq<Byte>, w: nat, h: nat, fn: PointFn)
    ensures Transformed(before, after, w, h, fn) ==>
      (|after| == |before| == w * h * 4 &&
       forall x: nat, y: nat | x < w && y < h && fn(x, y, PixelAt(before, w, h, x, y)).None? ::
         PixelAt(after, w, h, x, y) == PixelAt(before, w, h, x, y))
  {
    |before| == w * h * 4 && |after| == w * h * 4 &&
    forall x: nat, y: nat | x < w && y < h :: PixelAt(after, w, h, x, y) == Transform(before, w, h, fn, x, y)
  }

  /**
   `after` is `before` part way through `each_point`: the pixels visited before (x, y),
   in column-major order, hold their new colour and the rest their old one.
   */
  ghost predicate PaintedUpTo(before: seq<Byte>, after: seq<Byte>, w: nat, h: nat, fn: PointFn, x: nat, y: nat)
  {
    |before| == w * h * 4 && |after| == w * h * 4 &&
    forall x': nat, y': nat | x' < w && y' < h ::
      PixelAt(after, w, h, x', y') ==
        if x' < x || (x' == x && y' < y) then Transform(before, w, h, fn, x', y') else PixelAt(before, w, h, x', y')
  }

  /** Storing the new colour of the next pixel moves the frontier on by one coordinate, down the current column. */
  lemma {:induction false} PaintStep(before: seq<Byte>, mid: seq<Byte>, w: nat, h: nat, fn: PointFn, x: nat, y: nat)
    requires x < w && y < h && PaintedUpTo(before, mid, w, h, fn, x, y)
    ensures PaintedUpTo(before, WritePixel(mid, w, h, x, y, Transform(before, w, h, fn, x, y)), w, h, fn, x, y + 1)
  {
    var after := WritePixel(mid, w, h, x, y, Transform(before, w, h, fn, x, y));
    forall x': nat, y': nat | x' < w && y' < h && (x', y') != (x, y)
      ensures PixelAt(after, w, h, x', y') == PixelAt(mid, w, h, x', y')
    {
      WriteKeepsOtherPixels(mid, w, h, x, y, Transform(before, w, h, fn, x, y), x', y');
    }
  }

  /** A finished column is the start of the next one. */
  lemma {:induction false} PaintNextColumn(before: seq<Byte>, after: seq<Byte>, w: nat, h: nat, fn: PointFn, x: nat)
    requires PaintedUpTo(before, after, w, h, fn, x, h)
    ensures PaintedUpTo(before, after, w, h, fn, x + 1, 0)
  {
  }

  /** Once every column is painted, the pass is complete. */
  lemma {:induction false} PaintDone(before: seq<Byte>, after: seq<Byte>, w: nat, h: nat, fn: PointFn)
    requires PaintedUpTo(before, after, w, h, fn, w, 0)
    ensures Transformed(before, after, w, h, fn)
  {
  }

  /** One pass of `each_point` has exactly one outcome. */
  lemma {:induction false} TransformedUnique(before: seq<Byte>, a1: seq<Byte>, a2: seq<Byte>, w: nat, h: nat, fn: PointFn)
    requires Transformed(before, a1, w, h, fn) && Transformed(before, a2, w, h, fn)
    ensures a1 == a2
  {
    PixelsDetermineBuffer(a1, a2, w, h);
  }

  /** A callback that never returns a colour leaves the whole buffer as it was. */
  lemma {:induction false} TransformNothingIsIdentity(before: seq<Byte>, after: seq<Byte>, w: nat, h: nat, fn: PointFn)
    requires Transformed(before, after, w, h, fn)
    requires forall x: nat, y: nat, c: Color :: fn(x, y, c) == None
    ensures after == before
  {
    forall x: nat, y: nat | x < w && y < h
      ensures PixelAt(after, w, h, x, y) == PixelAt(before, w, h, x, y)
    {
      assert fn(x, y, PixelAt(before, w, h, x, y)) == None;
    }
    PixelsDetermineBuffer(after, before, w, h);
  }

  /** A callback that always returns the full colour c paints every byte with c's channels. */
  lemma {:induction false} TransformFill(before: seq<Byte>, after: seq<Byte>, w: nat, h: nat, c: Color)
    requires Transformed(before, after, w, h, (x: nat, y: nat, rgba: Color) => Some(Full(c)))
    ensures forall x: nat, y: nat | x < w && y < h :: PixelAt(after, w, h, x, y) == c
    ensures forall j :: 0 <= j < |after| ==> after[j] == Channel(c, j % 4)
  {
    forall x: nat, y: nat | x < w && y < h
      ensures PixelAt(after, w, h, x, y) == c
    {
      assert Merge(PixelAt(before, w, h, x, y), Full(c)) == c;
    }
    forall j | 0 <= j < |after|
      ensures after[j] == Channel(c, j % 4)
    {
      var xy := PixelOf(w, h, j);
      var k: nat := j - Offset(w, xy.0, xy.1);
      assert j % 4 == k;
      assert Channel(PixelAt(after, w, h, xy.0, xy.1), k) == after[j];
    }
  }

  /** The coordinates (x, 0), ..., (x, n - 1): the first n steps of `each_point`'s inner loop. */
  function Column(x: nat, n: nat): (s: seq<(nat, nat)>)
    ensures |s| == n
    ensures forall j :: 0 <= j < n ==> s[j] == (x, j)
  {
    if n == 0 then [] else Column(x, n - 1) + [(x, n - 1)]
  }

  /** The coordinates `each_point` visits, in order: x outer, y inner. */
  function ColumnMajor(w: nat, h: nat): (s: seq<(nat, nat)>)
    ensures |s| == w * h
  {
    if w == 0 then [] else
      assert (w - 1) * h + h == w * h;
      ColumnMajor(w - 1, h) + Column(w - 1, h)
  }

  /**
   Step k of `each_point` visits a coordinate (x, y) of the image, and k is x * h + y:
   column by column, and within a column row by row.
   */
  lemma {:induction false} ColumnMajorAt(w: nat, h: nat)
    ensures forall k :: 0 <= k < w * h ==>
      ColumnMajor(w, h)[k].0 < w && ColumnMajor(w, h)[k].1 < h && ColumnMajor(w, h)[k].0 * h + ColumnMajor(w, h)[k].1 == k
  {
    if w > 0 {
      ColumnMajorAt(w - 1, h);
      var prefix, column := ColumnMajor(w - 1, h), Column(w - 1, h);
      var s := prefix + column;
      var n := |prefix|;
      assert n + h == w * h by {
        assert n == (w - 1) * h;
      }
      forall k | 0 <= k < |s|
        ensures s[k].0 < w && s[k].1 < h && s[k].0 * h + s[k].1 == k
      {
        if k < n {
          assert s[k] == prefix[k];
          assert prefix[k].0 < w - 1 && prefix[k].1 < h && prefix[k].0 * h + prefix[k].1 == k;
        } else {
          assert s[k] == column[k - n] == (w - 1, k - n);
          assert (w - 1) * h == n;
        }
      }
      assert ColumnMajor(w, h) == s;
    }
  }

  /**
   `each_point` visits exactly the coordinates of the image: every (x, y) with x < w and
   y < h is visited, at step x * h + y and at no other step, and nothing else is visited.
   */
  lemma {:induction false} ColumnMajorVisitsOnce(w: nat, h: nat)
    ensures |ColumnMajor(w, h)| == w * h
    ensures forall k :: 0 <= k < w * h ==> ColumnMajor(w, h)[k].0 < w && ColumnMajor(w, h)[k].1 < h
    ensures forall x: nat, y: nat, k :: x < w && y < h && 0 <= k < w * h ==>
      (ColumnMajor(w, h)[k] == (x, y) <==> k == x * h + y)
  {
    ColumnMajorAt(w, h);
    forall x: nat, y: nat, k | x < w && y < h && 0 <= k < w * h && k == x * h + y
      ensures ColumnMajor(w, h)[k] == (x, y)
    {
      var step := ColumnMajor(w, h)[k];
      LinearUnique(h, step.1, step.0, y, x);
    }
  }
}
