# pingy pixel buffer, in Dafny

pingy is a small Node helper for building PNG images. Its core is an image with a width,
a height and a flat RGBA buffer `data` of `width * height * 4` bytes, laid out row after
row. Five operations act on it:

- `get_index` maps a coordinate (x, y) to its buffer offset `(width * y + x) << 2`;
- `get_rgba` reads the four bytes at that offset as a colour `{r, g, b, a}`;
- `set_rgba` stores a partial colour: every channel that is a number is written and every
  other channel keeps its byte; it returns the colour read back after the write;
- `each_point` visits every coordinate, x outer and y inner, passes the current colour to
  a callback and stores the callback's result, or the colour itself when the callback
  returns nothing;
- `create` allocates the buffer and paints every pixel opaque green through `each_point`.

The project has two modules.

- `Raster` (raster.dfy) holds the values and the facts about them.
  - Bytes, colours and partial colours.
  - JavaScript's 32-bit `<<` (`ToInt32`, `GetIndex`).
  - The reference layout `Offset(w, x, y) = 4 * (w * y + x)`.
  - The partial-update rule `Merge`.
  - Buffers as byte sequences (`PixelAt`, `WritePixel`).
  - The outcome of one `each_point` pass (`Outcome` models `out || rgba`; `Transform`,
    `Transformed`).
  - The visiting order `ColumnMajor`.
- `Pingy` (image.dfy) holds the class `Image`.
  - Its fields are `width`, `height` and `data: array<Byte>`.
  - `Valid()` ties the array's length to the dimensions.
  - `GetRgba` is a function that reads the array.
  - `SetRgba` and `EachPoint` change the array in place. Each is proved against the
    sequence-level specification in `Raster`.
  - `Create` is the constructor.

The callback of `each_point` is a pure function `(x, y, colour) -> Option<PartialColor>`.
`None` stands for a falsy return value. A partial colour's channel is `None` when the
object lacks that property or holds something that is not a number.

## Model

| member | source | states |
|---|---|---|
| Raster.ToInt32 | pingy.js:48 | the conversion `<<` applies: the result is a signed 32-bit integer congruent to the input modulo 2^32, and equal to it when the input is already in range |
| Raster.GetIndex | pingy.js:47-49 | `(width*y + x) << 2` is always a signed 32-bit integer, and equals `4 * (width*y + x)` whenever that pixel number is in [0, 2^29) |
| Raster.IndexInBounds | pingy.js:47-49 | for 0 <= x < width, 0 <= y < height and a buffer of at most 2^31 - 1 bytes, `get_index` is exactly `(width*y + x) * 4` and offset + 3 < width*height*4, so all four channel accesses are in bounds |
| Raster.IndexWrapsBeyondBound | pingy.js:48 | one instance of `IndexWrapsAbove`, kept as the concrete input of the finding below: `get_index` of pixel (0, 16384) of a 32768-wide image is -2^31 |
| Raster.IndexWrapsAbove | pingy.js:48 | as written, every pixel number in [2^29, 2^30) gets index 4*(width*y + x) - 2^32, which is negative, so that pixel's bytes are never addressed |
| Raster.Offset | pingy.js:47-49 | the intended offset of (x, y) is a multiple of 4, and for x < width it lies in row y's 4*width bytes [4*width*y, 4*width*(y+1)) |
| Raster.OffsetInBounds | pingy.js:47-49 | for every in-range (x, y) of an image of any size, the intended offset + 3 is below width*height*4 |
| Raster.LinearUnique | pingy.js:48 | the pixel number width*y + x with x < width determines x and y |
| Raster.OffsetsDisjoint | pingy.js:47-49 | two different in-range coordinates get disjoint four-byte windows [i, i+4), so the index map is injective on pixels |
| Raster.PixelOf | pingy.js:47-49 | every byte of a width*height*4 buffer lies in the window of some in-range pixel: the layout leaves no gaps |
| Raster.PixelAt | pingy.js:81-90 | the colour of an in-range pixel has channel k equal to byte Offset(width, x, y) + k, and those four bytes lie inside the buffer |
| Raster.Full | pingy.js:68 | a colour object passed back to `set_rgba` supplies all four channels, so storing it over any previous colour leaves exactly that colour |
| Raster.Merge | pingy.js:106-109 | channel k of the stored colour is the supplied number when there is one and the previous byte otherwise |
| Raster.MergeNothing | pingy.js:106-109 | an object without numeric channels leaves the pixel unchanged |
| Raster.MergeIdempotent | pingy.js:106-109 | storing the same partial colour twice equals storing it once |
| Raster.MergeAlphaOnly | pingy.js:106-109 | supplying only `a` changes alpha and keeps r, g and b |
| Raster.WritePixel | pingy.js:106-109 | writing pixel (x, y) yields a buffer of the same length whose pixel (x, y) reads the colour written and whose every byte outside [i, i+4) is unchanged |
| Raster.WriteKeepsOtherPixels | pingy.js:101-112 | writing pixel (x, y) leaves the colour of every other in-range pixel unchanged |
| Raster.PixelsDetermineBuffer | pingy.js:47-49 | two buffers of one image that agree on every pixel are equal |
| Raster.Outcome | pingy.js:68 | `out \|\| rgba`: a returned object is what gets stored, and when nothing is returned the stored partial colour leaves the pixel as it was |
| Raster.Transform | pingy.js:65-68 | the colour a visit leaves at (x, y): the old colour when the callback returns nothing, otherwise the partial-update merge of the callback's result over the old colour |
| Raster.Transformed | pingy.js:62-71 | after a full pass the buffer keeps its length, and every pixel for which the callback returns nothing keeps its old colour |
| Raster.PaintStep | pingy.js:65-68 | storing the next pixel's new colour extends the painted prefix, in visiting order, by one coordinate |
| Raster.PaintNextColumn | pingy.js:63-64 | a finished inner loop over y is the start of the next column |
| Raster.PaintDone | pingy.js:63-70 | when the outer loop ends, every pixel holds its new colour |
| Raster.TransformedUnique | pingy.js:62-71 | one `each_point` pass over a given buffer has exactly one resulting buffer |
| Raster.TransformNothingIsIdentity | pingy.js:65-68 | if the callback never returns a colour, the passed colour is written back and the buffer is unchanged |
| Raster.TransformFill | pingy.js:32-34 | a callback that always returns the full colour c leaves every pixel c and byte j equal to channel j mod 4 of c |
| Raster.Column | pingy.js:64 | the first n steps of the inner loop visit exactly (x, 0), ..., (x, n-1), in that order |
| Raster.ColumnMajor | pingy.js:63-64 | the nested loops make width*height visits |
| Raster.ColumnMajorAt | pingy.js:63-64 | step k of `each_point` visits an in-range (x, y) with k = x*height + y |
| Raster.ColumnMajorVisitsOnce | pingy.js:62-71 | `each_point` makes width*height visits; each visit is in range; every in-range (x, y) is visited at step x*height + y and at no other step |
| Pingy.Image.GetRgba | pingy.js:81-90 | reading through the 32-bit `get_index` gives the colour of bytes 4*(width*y + x) .. +3; it changes nothing |
| Pingy.Image.SetRgba | pingy.js:101-112 | the returned colour is the partial-update merge over the previous colour and equals a subsequent `get_rgba`. The new buffer is the old one with only that pixel's four bytes rewritten. Width, height and the array itself are unchanged |
| Pingy.Image.EachPoint | pingy.js:51-71 | visits exactly `ColumnMajor(width, height)` (x outer, y inner). Afterwards every pixel holds the merge of its old colour with the callback's result, or its old colour re-stored when the callback returns nothing. Width and height are unchanged |
| Pingy.Image.Create | pingy.js:25-37 | the new image has the given width and height and a fresh buffer of width*height*4 bytes. Every pixel reads {r: 0, g: 255, b: 0, a: 255}, whatever the buffer held before the fill |

## Left out

- `to_base64` and `to_base64_uri` (pingy.js:120-146). They hand the image to pngjs's `pack()`
  and collect the PNG stream through a Node `Stream`. The result is base64-encoded with Node's
  `Buffer`, and a callback receives it asynchronously. PNG chunking, DEFLATE and base64 belong
  to those libraries. The only thing the URI variant adds is the prefix `data:image/png;base64,`.
- The pngjs `PNG` object. It is replaced by the class `Image` with width, height and a byte array.
- Channel values that are not bytes. Node's `Buffer` truncates them modulo 256 on assignment,
  and `NaN` counts as a number for lodash's `isNumber`. The source does no clamping, so
  `SetRgba` takes its supplied channels as bytes.
- The contents of the freshly allocated buffer. Dafny zero-fills the array. `EachPoint`'s
  contract holds for any prior contents, and so does `Create`'s result.
- Pingy.Image.Create: requires width*height*4 <= 2^31 - 1. This is the model's bound, not the
  source's: `create` has no guard, and pingy.js:30 passes an encoding string with a numeric
  length, which Node's `Buffer` from v6 on rejects with a throw whatever the size. Neither that
  throw nor any other allocation failure is modelled.
- Pingy.Image.GetRgba: the same bound sits in `Valid()` (image.dfy:17), so images of more than
  2^31 - 1 bytes built some other way, such as one decoded by pngjs, are not covered. On them
  `get_index` wraps (see "## Findings").
- Pingy.Image.SetRgba: excludes images above the bound through `Valid()`, for the same reason.
- Pingy.Image.EachPoint: excludes images above the bound through `Valid()`, for the same reason.
- Fractional, negative and NaN dimensions. `create` accepts any width and height; the model
  takes them as `nat`.
- Coordinates outside the image. The source has no guard, so `GetRgba` and `SetRgba`
  require 0 <= x < width and 0 <= y < height.
- Callback side effects in `each_point`. These include captured state, and mutating the
  `rgba` object and then returning nothing. The callback is a pure function, so "returns
  nothing" always re-stores the unchanged colour.
- A truthy non-object return value from the callback, such as a number. It is modelled as a
  partial colour with no numeric channels, which is what `set_rgba` makes of it.

## Findings

| source | as written | input that shows it | evidently intended | confidence | as-written member | corrected member |
|---|---|---|---|---|---|---|
| pingy.js:48 | `(width * y + x) << 2` converts to a signed 32-bit integer, so the offset wraps once the pixel number reaches 2^29 | `get_index({width: 32768}, 0, 16384)`: pixel number 2^29, offset -2^31. It matters to `get_rgba`, `set_rgba` and `each_point` on an image that large built other than by `create`, for instance decoded by pngjs | offset `(width * y + x) * 4` for every in-range pixel | not executed | Raster.IndexWrapsAbove | Raster.OffsetInBounds |

The rest of the model addresses pixels through `Offset`. `GetRgba` and `SetRgba` compute
the index with the as-written `GetIndex`, but only under the length bound, where
`IndexInBounds` shows that the two agree.
