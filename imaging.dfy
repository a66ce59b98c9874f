/** The handful of image operations `process_image` performs, on images held as 2D arrays
    of pixels indexed `[row, column]` (that is `[y, x]`). Each operation is a method that
    updates its target array in place, proved against a pure function on grids
    (`seq<seq<_>>`) that says what the new picture is; the lemmas about the compositing
    are stated on those functions. */
module Imaging {

  newtype byte = x: int | 0 <= x < 256

  /** One pixel in RGBA. An RGB image is one whose pixels all have alpha 255. */
  datatype Rgba = Rgba(red: byte, green: byte, blue: byte, alpha: byte)

  /** `(0, 0, 0, 0)`, the fill of a fresh RGBA canvas. */
  const Transparent := Rgba(0, 0, 0, 0)

  /** Opaque black, the fill of a fresh RGB canvas created with `color='black'`. */
  const Black := Rgba(0, 0, 0, 255)

  // ---------------------------------------------------------------------------------
  // Grids

  function Width<T>(g: seq<seq<T>>): nat
  {
    if |g| == 0 then 0 else |g[0]|
  }

  predicate IsGrid<T>(g: seq<seq<T>>, height: nat, width: nat)
  {
    |g| == height && forall y :: 0 <= y < height ==> |g[y]| == width
  }

  /** Every row has the same length. */
  predicate Rect<T>(g: seq<seq<T>>)
  {
    IsGrid(g, |g|, Width(g))
  }

  /** A canvas of the given size filled with one value: `Image.new(mode, size, fill)`. */
  function NewGrid<T>(height: nat, width: nat, fill: T): (g: seq<seq<T>>)
    ensures IsGrid(g, height, width)
    ensures forall y, x :: 0 <= y < height && 0 <= x < width ==> g[y][x] == fill
  {
    seq(height, y requires 0 <= y < height => seq(width, x requires 0 <= x < width => fill))
  }

  /** Whether the point `(x, y)` of the target lies under a `height` x `width` box whose
      top-left corner is at `(ox, oy)`. */
  predicate Covers(height: nat, width: nat, ox: int, oy: int, y: int, x: int)
  {
    oy <= y < oy + height && ox <= x < ox + width
  }

  // ---------------------------------------------------------------------------------
  // Pixel arithmetic

  lemma {:induction false} MulMonotone(a: nat, b: nat, c: nat)
    requires a <= b
    ensures 0 <= a * c <= b * c
  {
    if c > 0 {
      MulMonotone(a, b, c - 1);
      assert a * c == a * (c - 1) + a && b * c == b * (c - 1) + b;
    }
  }

  lemma MixBound(d: byte, s: byte, a: byte)
    ensures 0 <= (d as int) * (255 - a as int) + (s as int) * (a as int) <= 255 * 255
  {
    MulMonotone(d as nat, 255, 255 - a as nat);
    MulMonotone(s as nat, 255, a as nat);
    assert 255 * (255 - a as int) + 255 * (a as int) == 255 * 255;
  }

  /** One channel of a masked paste: `d` and `s` weighted by `255 - a` and `a`. */
  function Mix(d: byte, s: byte, a: byte): (r: byte)
    ensures a == 0 ==> r == d
    ensures a == 255 ==> r == s
  {
    MixBound(d, s, a);
    (((d as int) * (255 - a as int) + (s as int) * (a as int)) / 255) as byte
  }

  /** The source pixel drawn over the destination pixel through the source's own alpha. */
  function Over(d: Rgba, s: Rgba): (r: Rgba)
    ensures s.alpha == 0 ==> r == d
    ensures s.alpha == 255 ==> r == s
  {
    Rgba(Mix(d.red, s.red, s.alpha), Mix(d.green, s.green, s.alpha),
         Mix(d.blue, s.blue, s.alpha), Mix(d.alpha, s.alpha, s.alpha))
  }

  // ---------------------------------------------------------------------------------
  // What each operation makes of a picture

  /** `dst` after `dst.paste(src, (ox, oy))` without a mask, at one point: the box is
      clipped to `dst`, and under it the source pixel replaces the destination pixel. */
  function PasteAt(dst: seq<seq<Rgba>>, src: seq<seq<Rgba>>, ox: int, oy: int, y: nat, x: nat): Rgba
    requires Rect(src) && y < |dst| && x < |dst[y]|
  {
    if Covers(|src|, Width(src), ox, oy, y, x) then src[y - oy][x - ox] else dst[y][x]
  }

  function PasteGrid(dst: seq<seq<Rgba>>, src: seq<seq<Rgba>>, ox: int, oy: int): (r: seq<seq<Rgba>>)
    requires Rect(dst) && Rect(src)
    ensures IsGrid(r, |dst|, Width(dst))
  {
    seq(|dst|, y requires 0 <= y < |dst| =>
      seq(|dst[y]|, x requires 0 <= x < |dst[y]| => PasteAt(dst, src, ox, oy, y, x)))
  }

  /** `dst` after `dst.paste(src, (ox, oy), src)`: the source is its own mask, so under the
      clipped box each source pixel is drawn over the destination through its alpha. */
  function AlphaPasteAt(dst: seq<seq<Rgba>>, src: seq<seq<Rgba>>, ox: int, oy: int, y: nat, x: nat): Rgba
    requires Rect(src) && y < |dst| && x < |dst[y]|
  {
    if Covers(|src|, Width(src), ox, oy, y, x) then Over(dst[y][x], src[y - oy][x - ox]) else dst[y][x]
  }

  function AlphaPasteGrid(dst: seq<seq<Rgba>>, src: seq<seq<Rgba>>, ox: int, oy: int): (r: seq<seq<Rgba>>)
    requires Rect(dst) && Rect(src)
    ensures IsGrid(r, |dst|, Width(dst))
  {
    seq(|dst|, y requires 0 <= y < |dst| =>
      seq(|dst[y]|, x requires 0 <= x < |dst[y]| => AlphaPasteAt(dst, src, ox, oy, y, x)))
  }

  /** `img.putalpha(mask)`: every pixel keeps its colour and takes the mask value as alpha. */
  function WithAlphaGrid(img: seq<seq<Rgba>>, mask: seq<seq<byte>>): (r: seq<seq<Rgba>>)
    requires Rect(img) && IsGrid(mask, |img|, Width(img))
    ensures IsGrid(r, |img|, Width(img))
  {
    seq(|img|, y requires 0 <= y < |img| =>
      seq(Width(img), x requires 0 <= x < Width(img) => img[y][x].(alpha := mask[y][x])))
  }

  /** A filled shape drawn with `fill=value` onto `mask`: the pixels the rasteriser
      `covers` take the value, the others keep theirs. */
  function FillGrid(mask: seq<seq<byte>>, covers: seq<seq<bool>>, value: byte): (r: seq<seq<byte>>)
    requires Rect(mask) && IsGrid(covers, |mask|, Width(mask))
    ensures IsGrid(r, |mask|, Width(mask))
  {
    seq(|mask|, y requires 0 <= y < |mask| =>
      seq(Width(mask), x requires 0 <= x < Width(mask) => if covers[y][x] then value else mask[y][x]))
  }

  // ---------------------------------------------------------------------------------
  // Properties of the masked paste

  /** Pixel by pixel, a masked paste keeps the destination outside the box and where the
      source is transparent, and shows the source where it is opaque. */
  lemma AlphaPastePixel(dst: seq<seq<Rgba>>, src: seq<seq<Rgba>>, ox: int, oy: int, y: nat, x: nat)
    requires Rect(dst) && Rect(src) && y < |dst| && x < Width(dst)
    ensures var r := AlphaPasteGrid(dst, src, ox, oy)[y][x];
      (!Covers(|src|, Width(src), ox, oy, y, x) ==> r == dst[y][x]) &&
      (Covers(|src|, Width(src), ox, oy, y, x) && src[y - oy][x - ox].alpha == 0 ==> r == dst[y][x]) &&
      (Covers(|src|, Width(src), ox, oy, y, x) && src[y - oy][x - ox].alpha == 255 ==> r == src[y - oy][x - ox])
  {
  }

  /** Every source pixel is fully opaque or fully transparent. */
  predicate BinaryAlpha(src: seq<seq<Rgba>>)
  {
    forall y, x :: 0 <= y < |src| && 0 <= x < |src[y]| ==> src[y][x].alpha == 0 || src[y][x].alpha == 255
  }

  /** Pasting the same binary-alpha cutout twice at the same place is pasting it once. With
      alpha only 0 or 255 the paste is a pure replacement on the opaque pixels, with no
      blending, so the badge does not depend on what the template held under them. */
  lemma AlphaPasteIdempotent(dst: seq<seq<Rgba>>, src: seq<seq<Rgba>>, ox: int, oy: int)
    requires Rect(dst) && Rect(src) && BinaryAlpha(src)
    ensures AlphaPasteGrid(AlphaPasteGrid(dst, src, ox, oy), src, ox, oy) == AlphaPasteGrid(dst, src, ox, oy)
  {
    var once := AlphaPasteGrid(dst, src, ox, oy);
    var twice := AlphaPasteGrid(once, src, ox, oy);
    forall y | 0 <= y < |dst| ensures twice[y] == once[y] {
      forall x | 0 <= x < Width(dst) ensures twice[y][x] == once[y][x] {
        if Covers(|src|, Width(src), ox, oy, y, x) {
          assert src[y - oy][x - ox].alpha == 0 || src[y - oy][x - ox].alpha == 255;
        }
      }
    }
  }

  /** An unmasked paste at the origin of a source exactly the size of the target replaces
      every pixel. */
  lemma PasteWholeGrid(dst: seq<seq<Rgba>>, src: seq<seq<Rgba>>)
    requires Rect(dst) && IsGrid(src, |dst|, Width(dst))
    ensures PasteGrid(dst, src, 0, 0) == src
  {
    var r := PasteGrid(dst, src, 0, 0);
    forall y | 0 <= y < |dst| ensures r[y] == src[y] {
      assert |r[y]| == |src[y]|;
    }
  }

  // ---------------------------------------------------------------------------------
  // The operations on arrays

  /** The picture held by an array. */
  ghost function Grid<T>(a: array2<T>): (g: seq<seq<T>>)
    reads a
    ensures IsGrid(g, a.Length0, a.Length1)
    ensures forall y, x :: 0 <= y < a.Length0 && 0 <= x < a.Length1 ==> g[y][x] == a[y, x]
  {
    seq(a.Length0, y requires 0 <= y < a.Length0 reads a =>
      seq(a.Length1, x requires 0 <= x < a.Length1 reads a => a[y, x]))
  }

  lemma GridIs<T>(a: array2<T>, g: seq<seq<T>>)
    requires IsGrid(g, a.Length0, a.Length1)
    requires forall y, x :: 0 <= y < a.Length0 && 0 <= x < a.Length1 ==> a[y, x] == g[y][x]
    ensures Grid(a) == g
  {
    var h := Grid(a);
    forall y | 0 <= y < a.Length0 ensures h[y] == g[y] {
      assert |h[y]| == |g[y]|;
    }
  }

  /** `Image.new(mode, (width, height), fill)` */
  method NewImage<T>(height: nat, width: nat, fill: T) returns (img: array2<T>)
    ensures fresh(img) && img.Length0 == height && img.Length1 == width
    ensures Grid(img) == NewGrid(height, width, fill)
  {
    img := new T[height, width]((y, x) => fill);
    GridIs(img, NewGrid(height, width, fill));
  }

  /** `image.copy()` */
  method CopyImage(src: array2<Rgba>) returns (copy: array2<Rgba>)
    ensures fresh(copy) && copy.Length0 == src.Length0 && copy.Length1 == src.Length1
    ensures Grid(copy) == Grid(src)
  {
    copy := new Rgba[src.Length0, src.Length1];
    forall y, x | 0 <= y < src.Length0 && 0 <= x < src.Length1 {
      copy[y, x] := src[y, x];
    }
    GridIs(copy, Grid(src));
  }

  /** `ImageDraw.Draw(mask).ellipse(..., fill=value)`, with the pixels the rasteriser
      covers given as `covers`. */
  method FillShape(mask: array2<byte>, covers: seq<seq<bool>>, value: byte)
    requires IsGrid(covers, mask.Length0, mask.Length1)
    modifies mask
    ensures Grid(mask) == FillGrid(old(Grid(mask)), covers, value)
  {
    ghost var before := Grid(mask);
    forall y, x | 0 <= y < mask.Length0 && 0 <= x < mask.Length1 {
      mask[y, x] := if covers[y][x] then value else mask[y, x];
    }
    GridIs(mask, FillGrid(before, covers, value));
  }

  /** `img.putalpha(mask)` for a mask of the image's size. */
  method PutAlpha(img: array2<Rgba>, mask: array2<byte>)
    requires mask.Length0 == img.Length0 && mask.Length1 == img.Length1
    modifies img
    ensures Grid(img) == WithAlphaGrid(old(Grid(img)), Grid(mask))
  {
    ghost var before := Grid(img);
    forall y, x | 0 <= y < img.Length0 && 0 <= x < img.Length1 {
      img[y, x] := img[y, x].(alpha := mask[y, x]);
    }
    GridIs(img, WithAlphaGrid(before, Grid(mask)));
  }

  /** First row (or column) of the box `[offset, offset + size)` inside `[0, limit)`, and
      the end of that range, never below its start. */
  function ClipStart(offset: int): nat
  {
    if offset < 0 then 0 else offset
  }

  function ClipEnd(offset: int, size: nat, limit: nat): (e: nat)
    ensures ClipStart(offset) <= e && (e == ClipStart(offset) || e <= limit)
  {
    var e := if offset + size < limit then offset + size else limit;
    if e < ClipStart(offset) then ClipStart(offset) else e
  }

  /** `dst.paste(src, (ox, oy))`: row by row over the part of the box inside `dst`, each
      source pixel replaces the destination pixel. */
  method Paste(dst: array2<Rgba>, src: array2<Rgba>, ox: int, oy: int)
    requires dst != src
    modifies dst
    ensures Grid(dst) == PasteGrid(old(Grid(dst)), Grid(src), ox, oy)
  {
    ghost var before := Grid(dst);
    ghost var s := Grid(src);
    var y0, y1 := ClipStart(oy), ClipEnd(oy, src.Length0, dst.Length0);
    var x0, x1 := ClipStart(ox), ClipEnd(ox, src.Length1, dst.Length1);
    var y := y0;
    while y < y1
      invariant y0 <= y <= y1
      invariant forall r, c :: 0 <= r < dst.Length0 && 0 <= c < dst.Length1 ==>
        dst[r, c] == if y0 <= r < y && x0 <= c < x1 then PasteAt(before, s, ox, oy, r, c) else before[r][c]
    {
      var x := x0;
      while x < x1
        invariant x0 <= x <= x1
        invariant forall r, c :: 0 <= r < dst.Length0 && 0 <= c < dst.Length1 ==>
          dst[r, c] == if (y0 <= r < y && x0 <= c < x1) || (r == y && x0 <= c < x)
                       then PasteAt(before, s, ox, oy, r, c) else before[r][c]
      {
        dst[y, x] := src[y - oy, x - ox];
        x := x + 1;
      }
      y := y + 1;
    }
    GridIs(dst, PasteGrid(before, s, ox, oy));
  }

  /** `dst.paste(src, (ox, oy), src)`: row by row over the part of the box inside `dst`,
      each source pixel is drawn over the destination through its own alpha. */
  method PasteWithAlpha(dst: array2<Rgba>, src: array2<Rgba>, ox: int, oy: int)
    requires dst != src
    modifies dst
    ensures Grid(dst) == AlphaPasteGrid(old(Grid(dst)), Grid(src), ox, oy)
  {
    ghost var before := Grid(dst);
    ghost var s := Grid(src);
    var y0, y1 := ClipStart(oy), ClipEnd(oy, src.Length0, dst.Length0);
    var x0, x1 := ClipStart(ox), ClipEnd(ox, src.Length1, dst.Length1);
    var y := y0;
    while y < y1
      invariant y0 <= y <= y1
      invariant forall r, c :: 0 <= r < dst.Length0 && 0 <= c < dst.Length1 ==>
        dst[r, c] == if y0 <= r < y && x0 <= c < x1 then AlphaPasteAt(before, s, ox, oy, r, c) else before[r][c]
    {
      var x := x0;
      while x < x1
        invariant x0 <= x <= x1
        invariant forall r, c :: 0 <= r < dst.Length0 && 0 <= c < dst.Length1 ==>
          dst[r, c] == if (y0 <= r < y && x0 <= c < x1) || (r == y && x0 <= c < x)
                       then AlphaPasteAt(before, s, ox, oy, r, c) else before[r][c]
      {
        dst[y, x] := Over(dst[y, x], src[y - oy, x - ox]);
        x := x + 1;
      }
      y := y + 1;
    }
    GridIs(dst, AlphaPasteGrid(before, s, ox, oy));
  }
}
