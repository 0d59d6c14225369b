/**
 pingy's image: a width, a height and the RGBA buffer `data`, four bytes a pixel,
 row after row, with the accessors that read and change it in place.
 */
module Pingy {
  import opened Raster

  class Image {
    var width: nat
    var height: nat
    var data: array<Byte>

    /** The buffer holds exactly four bytes for every pixel. */
    ghost predicate Valid()
      reads this
    {
      data.Length == width * height * 4 && data.Length <= MaxBufferLength
    }

    /**
     `create`: a width-by-height image whose every pixel is opaque green. The buffer is
     allocated and then painted through `each_point`, whatever it held before.
     */
    constructor Create(w: nat, h: nat)
      requires w * h * 4 <= MaxBufferLength
      ensures Valid() && width == w && height == h && fresh(data)
      ensures forall x: nat, y: nat | x < w && y < h :: GetRgba(x, y) == Green
      ensures forall j :: 0 <= j < data.Length ==> data[j] == Channel(Green, j % 4)
    {
      width, height := w, h;
      data := new Byte[w * h * 4];
      new;
      ghost var before := data[..];
      ghost var visited := EachPoint((x: nat, y: nat, rgba: Color) => Some(Full(Green)));
      TransformFill(before, data[..], w, h, Green);
    }

    /** `get_rgba`: the colour stored at (x, y), read through the 32-bit `get_index`. */
    function GetRgba(x: nat, y: nat): (c: Color)
      reads this, data
      requires Valid() && x < width && y < height
      ensures c == PixelAt(data[..], width, height, x, y)
    {
      IndexInBounds(width, height, x, y);
      var i := GetIndex(width, x, y);
      Color(data[i], data[i + 1], data[i + 2], data[i + 3])
    }

    /**
     `set_rgba`: store the numeric channels of `rgba` at (x, y), keep the other channels,
     and return the colour read back afterwards.
     */
    method SetRgba(x: nat, y: nat, rgba: PartialColor) returns (c: Color)
      requires Valid() && x < width && y < height
      modifies data
      ensures Valid()
      ensures c == Merge(old(GetRgba(x, y)), rgba)
      ensures c == GetRgba(x, y)
      ensures data[..] == WritePixel(old(data[..]), width, height, x, y, c)
    {
      IndexInBounds(width, height, x, y);
      var i := GetIndex(width, x, y);
      var prev := GetRgba(x, y);
      data[i] := if rgba.r.Some? then rgba.r.value else prev.r;
      data[i + 1] := if rgba.g.Some? then rgba.g.value else prev.g;
      data[i + 2] := if rgba.b.Some? then rgba.b.value else prev.b;
      data[i + 3] := if rgba.a.Some? then rgba.a.value else prev.a;
      c := GetRgba(x, y);
      assert data[..] == WritePixel(old(data[..]), width, height, x, y, c);
    }

    /**
     `each_point`: visit every coordinate, x outer and y inner, hand the current colour
     to `fn` and store what it returns, or the colour itself when it returns nothing.
     `visited` records the coordinates in the order they are visited.
     */
    method EachPoint(fn: PointFn) returns (ghost visited: seq<(nat, nat)>)
      requires Valid()
      modifies data
      ensures Valid()
      ensures visited == ColumnMajor(width, height)
      ensures Transformed(old(data[..]), data[..], width, height, fn)
    {
      ghost var before := data[..];
      visited := [];
      var x: nat := 0;
      while x < width
        invariant x <= width
        invariant visited == ColumnMajor(x, height)
        invariant PaintedUpTo(before, data[..], width, height, fn, x, 0)
      {
        var y: nat := 0;
        ghost var column := [];
        while y < height
          invariant y <= height
          invariant column == Column(x, y)
          invariant PaintedUpTo(before, data[..], width, height, fn, x, y)
        {
          var rgba := GetRgba(x, y);
          var out := fn(x, y, rgba);
          assert rgba == PixelAt(before, width, height, x, y);
          ghost var mid := data[..];
          var stored := SetRgba(x, y, if out.Some? then out.value else Full(rgba));
          assert stored == Transform(before, width, height, fn, x, y);
          PaintStep(before, mid, width, height, fn, x, y);
          column := column + [(x, y)];
          y := y + 1;
        }
        PaintNextColumn(before, data[..], width, height, fn, x);
        visited := visited + column;
        x := x + 1;
      }
      PaintDone(before, data[..], width, height, fn);
    }
  }
}
