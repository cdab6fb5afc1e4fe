/** Nearest-neighbour resampling of an RGBA8 raster: every destination
    pixel is a copy of the source pixel its coordinates scale back to. */
module Interpolations {
  import opened Naturals
  import opened Raster

  /** Natural-number division brackets its dividend between two
      consecutive multiples of the divisor. */
  lemma DivBrackets(n: nat, dst: nat)
    requires dst >= 1
    ensures (n / dst) * dst <= n < (n / dst + 1) * dst
  {
    var q, r := n / dst, n % dst;
    assert n == q * dst + r;
    assert (q + 1) * dst == q * dst + dst;
  }

  /** A quotient `d * src / dst` with `d < dst` stays below `src`. */
  lemma ScaledBelow(d: nat, src: nat, dst: nat)
    requires d < dst && src >= 1
    ensures d * src / dst < src
  {
    var p := d * src / dst;
    DivBrackets(d * src, dst);
    MulMonotone(d, dst, src);
    if p >= src {
      MulMonotone(src, p, dst);
    }
  }

  /** The source coordinate that destination coordinate `d` samples when an
      axis of `src` pixels is stretched to `dst` pixels: the floor of
      `d * (src / dst)`, computed exactly. */
  function SourceCoord(d: nat, src: nat, dst: nat): (p: nat)
    requires dst >= 1
    ensures p * dst <= d * src < (p + 1) * dst
    ensures d < dst && src >= 1 ==> p < src
  {
    DivBrackets(d * src, dst);
    if d < dst && src >= 1 then ScaledBelow(d, src, dst); d * src / dst
    else d * src / dst
  }

  /** The four channels that destination pixel `(x, y)` copies: those of
      the source pixel at the scaled coordinates. */
  function SourcePixel(img: Image, newWidth: nat, newHeight: nat, x: nat, y: nat): (p: seq<byte>)
    requires img.Valid() && newWidth >= 1 && newHeight >= 1
    requires x < newWidth && y < newHeight
    ensures |p| == Channels
    ensures var px := SourceCoord(x, img.width, newWidth);
            var py := SourceCoord(y, img.height, newHeight);
            && Offset(px, py, img.width) + Channels <= |img.data|
            && forall c :: 0 <= c < Channels ==> p[c] == img.data[Offset(px, py, img.width) + c]
  {
    Pixel(img, SourceCoord(x, img.width, newWidth), SourceCoord(y, img.height, newHeight))
  }

  /** The first `x` destination pixels of row `y`, as the inner loop
      produces them. */
  function RowPrefix(img: Image, newWidth: nat, newHeight: nat, y: nat, x: nat): (s: seq<byte>)
    requires img.Valid() && newWidth >= 1 && newHeight >= 1
    requires x <= newWidth && y < newHeight
    ensures |s| == Channels * x
  {
    if x == 0 then []
    else RowPrefix(img, newWidth, newHeight, y, x - 1) + SourcePixel(img, newWidth, newHeight, x - 1, y)
  }

  /** The first `y` destination rows, as the outer loop produces them;
      they fill the buffer up to the start of row `y`. */
  function RowsPrefix(img: Image, newWidth: nat, newHeight: nat, y: nat): (s: seq<byte>)
    requires img.Valid() && newWidth >= 1 && newHeight >= 1
    requires y <= newHeight
    ensures |s| == Offset(0, y, newWidth)
  {
    if y == 0 then []
    else
      OffsetNextRow(y - 1, newWidth);
      OffsetInRow(newWidth, y - 1, newWidth);
      RowsPrefix(img, newWidth, newHeight, y - 1) + RowPrefix(img, newWidth, newHeight, y - 1, newWidth)
  }

  /** The resampled image, as a pure function of the input: every row of
      the target, each pixel copied from the source. */
  function Resize(img: Image, newWidth: nat, newHeight: nat): (r: Image)
    requires img.Valid() && newWidth >= 1 && newHeight >= 1
    ensures r.Valid() && r.width == newWidth && r.height == newHeight
  {
    OffsetEnd(newWidth, newHeight);
    Image(RowsPrefix(img, newWidth, newHeight, newHeight), newWidth, newHeight)
  }

  /** The resampled buffer has the length the allocation gives it,
      `newWidth * newHeight * 4`. */
  lemma ResizeLength(img: Image, newWidth: nat, newHeight: nat)
    requires img.Valid() && newWidth >= 1 && newHeight >= 1
    ensures |Resize(img, newWidth, newHeight).data| == newWidth * newHeight * Channels
  {
    assert BufferLength(newWidth, newHeight) == newWidth * newHeight * Channels;
  }

  /** Channel `c` of pixel `k < x` of a row prefix is channel `c` of the
      source pixel that pixel `k` samples. */
  lemma {:induction false} RowPrefixAt(img: Image, newWidth: nat, newHeight: nat, y: nat, x: nat, k: nat, c: nat)
    requires img.Valid() && newWidth >= 1 && newHeight >= 1
    requires x <= newWidth && y < newHeight && k < x && c < Channels
    ensures Channels * k + c < Channels * x
    ensures RowPrefix(img, newWidth, newHeight, y, x)[Channels * k + c]
              == SourcePixel(img, newWidth, newHeight, k, y)[c]
  {
    if k < x - 1 {
      RowPrefixAt(img, newWidth, newHeight, y, x - 1, k, c);
    }
  }

  /** The last of the first `y` rows sits at the end of the prefix: its
      channel `k*4 + c` is at index `((y - 1)*newWidth + k)*4 + c`. */
  lemma RowsPrefixLast(img: Image, newWidth: nat, newHeight: nat, y: nat, k: nat, c: nat)
    requires img.Valid() && newWidth >= 1 && newHeight >= 1
    requires 1 <= y <= newHeight && k < newWidth && c < Channels
    ensures Offset(k, y - 1, newWidth) + c < Offset(0, y, newWidth)
    ensures RowsPrefix(img, newWidth, newHeight, y)[Offset(k, y - 1, newWidth) + c]
              == RowPrefix(img, newWidth, newHeight, y - 1, newWidth)[Channels * k + c]
  {
    var prev := RowsPrefix(img, newWidth, newHeight, y - 1);
    var row := RowPrefix(img, newWidth, newHeight, y - 1, newWidth);
    assert RowsPrefix(img, newWidth, newHeight, y) == prev + row;
    OffsetInRow(k, y - 1, newWidth);
    OffsetInRow(newWidth, y - 1, newWidth);
    OffsetNextRow(y - 1, newWidth);
    assert (prev + row)[|prev| + Channels * k + c] == row[Channels * k + c];
  }

  /** Adding a row leaves the rows before it in place. */
  lemma RowsPrefixEarlier(img: Image, newWidth: nat, newHeight: nat, y: nat, i: nat)
    requires img.Valid() && newWidth >= 1 && newHeight >= 1
    requires 1 <= y <= newHeight && i < Offset(0, y - 1, newWidth)
    ensures i < Offset(0, y, newWidth)
    ensures RowsPrefix(img, newWidth, newHeight, y)[i] == RowsPrefix(img, newWidth, newHeight, y - 1)[i]
  {
    var prev := RowsPrefix(img, newWidth, newHeight, y - 1);
    var row := RowPrefix(img, newWidth, newHeight, y - 1, newWidth);
    assert RowsPrefix(img, newWidth, newHeight, y) == prev + row;
    assert (prev + row)[i] == prev[i];
  }

  /** Channel `c` of pixel `(k, j)` with `j < y` in the first `y` rows is
      channel `c` of that row's `k`-th pixel. */
  lemma {:induction false} RowsPrefixAt(img: Image, newWidth: nat, newHeight: nat, y: nat, k: nat, j: nat, c: nat)
    requires img.Valid() && newWidth >= 1 && newHeight >= 1
    requires y <= newHeight && k < newWidth && j < y && c < Channels
    ensures Offset(k, j, newWidth) + c < Offset(0, y, newWidth)
    ensures RowsPrefix(img, newWidth, newHeight, y)[Offset(k, j, newWidth) + c]
              == RowPrefix(img, newWidth, newHeight, j, newWidth)[Channels * k + c]
  {
    if j < y - 1 {
      RowsPrefixAt(img, newWidth, newHeight, y - 1, k, j, c);
      RowsPrefixEarlier(img, newWidth, newHeight, y, Offset(k, j, newWidth) + c);
    } else {
      RowsPrefixLast(img, newWidth, newHeight, y, k, c);
    }
  }

  /** Channel `c` of destination pixel `(x, y)` is channel `c` of the source
      pixel at the scaled coordinates. */
  lemma ResizeAt(img: Image, newWidth: nat, newHeight: nat, x: nat, y: nat, c: nat)
    requires img.Valid() && newWidth >= 1 && newHeight >= 1
    requires x < newWidth && y < newHeight && c < Channels
    ensures Offset(x, y, newWidth) + c < Times(newHeight, newWidth) * Channels
    ensures var px := SourceCoord(x, img.width, newWidth);
            var py := SourceCoord(y, img.height, newHeight);
            Offset(px, py, img.width) + c < |img.data| &&
            Resize(img, newWidth, newHeight).data[Offset(x, y, newWidth) + c]
              == img.data[Offset(px, py, img.width) + c]
  {
    OffsetInBounds(x, y, c, newWidth, newHeight);
    OffsetInBounds(SourceCoord(x, img.width, newWidth), SourceCoord(y, img.height, newHeight),
                   c, img.width, img.height);
    OffsetEnd(newWidth, newHeight);
    RowsPrefixAt(img, newWidth, newHeight, newHeight, x, y, c);
    RowPrefixAt(img, newWidth, newHeight, y, newWidth, x, c);
  }

  /** Every destination pixel is the source pixel at
      `(floor(x * W / newWidth), floor(y * H / newHeight))`. */
  lemma ResizeSourcesNearest(img: Image, newWidth: nat, newHeight: nat)
    requires img.Valid() && newWidth >= 1 && newHeight >= 1
    ensures var r := Resize(img, newWidth, newHeight);
            forall x: nat, y: nat :: x < newWidth && y < newHeight ==>
              Pixel(r, x, y)
                == Pixel(img, SourceCoord(x, img.width, newWidth), SourceCoord(y, img.height, newHeight))
  {
    var r := Resize(img, newWidth, newHeight);
    forall x: nat, y: nat | x < newWidth && y < newHeight
      ensures Pixel(r, x, y)
                == Pixel(img, SourceCoord(x, img.width, newWidth), SourceCoord(y, img.height, newHeight))
    {
      var source := Pixel(img, SourceCoord(x, img.width, newWidth), SourceCoord(y, img.height, newHeight));
      forall c: nat | c < Channels
        ensures Pixel(r, x, y)[c] == source[c]
      {
        ResizeAt(img, newWidth, newHeight, x, y, c);
      }
    }
  }

  /** One destination channel that obeys the pixel rule agrees with the
      resampled image. */
  lemma ChannelDetermined(img: Image, newWidth: nat, newHeight: nat, out: Image, x: nat, y: nat, c: nat)
    requires img.Valid() && newWidth >= 1 && newHeight >= 1
    requires out.Valid() && out.width == newWidth && out.height == newHeight
    requires x < newWidth && y < newHeight && c < Channels
    requires Pixel(out, x, y) == SourcePixel(img, newWidth, newHeight, x, y)
    ensures Offset(x, y, newWidth) + c < |out.data|
    ensures out.data[Offset(x, y, newWidth) + c] == Resize(img, newWidth, newHeight).data[Offset(x, y, newWidth) + c]
  {
    ResizeAt(img, newWidth, newHeight, x, y, c);
    assert out.data[Offset(x, y, newWidth) + c] == Pixel(out, x, y)[c];
  }

  /** The pixel rule at every destination pixel fixes every byte of the
      destination buffer. */
  lemma PixelRuleDeterminesBuffer(img: Image, newWidth: nat, newHeight: nat, out: Image)
    requires img.Valid() && newWidth >= 1 && newHeight >= 1
    requires out.Valid() && out.width == newWidth && out.height == newHeight
    requires forall x: nat, y: nat :: x < newWidth && y < newHeight ==>
               Pixel(out, x, y)
                 == Pixel(img, SourceCoord(x, img.width, newWidth), SourceCoord(y, img.height, newHeight))
    ensures out.data == Resize(img, newWidth, newHeight).data
  {
    var r := Resize(img, newWidth, newHeight);
    forall i | 0 <= i < |out.data|
      ensures out.data[i] == r.data[i]
    {
      DecomposeRoundTrip(i, newWidth, newHeight);
      ChannelDetermined(img, newWidth, newHeight, out, ColumnOf(i, newWidth), RowOf(i, newWidth), ChannelOf(i));
    }
  }

  /** A destination image of the right dimensions is the resampled image
      exactly when each of its pixels copies the source pixel at the scaled
      coordinates: the pixel rule determines the whole buffer. */
  lemma ResizeCharacterised(img: Image, newWidth: nat, newHeight: nat, out: Image)
    requires img.Valid() && newWidth >= 1 && newHeight >= 1
    requires out.Valid() && out.width == newWidth && out.height == newHeight
    ensures out == Resize(img, newWidth, newHeight) <==>
            forall x: nat, y: nat :: x < newWidth && y < newHeight ==>
              Pixel(out, x, y)
                == Pixel(img, SourceCoord(x, img.width, newWidth), SourceCoord(y, img.height, newHeight))
  {
    ResizeSourcesNearest(img, newWidth, newHeight);
    if forall x: nat, y: nat :: x < newWidth && y < newHeight ==>
         Pixel(out, x, y)
           == Pixel(img, SourceCoord(x, img.width, newWidth), SourceCoord(y, img.height, newHeight))
    {
      PixelRuleDeterminesBuffer(img, newWidth, newHeight, out);
    }
  }

  /** Every read of the source buffer is in bounds: the scaled coordinates
      name a pixel of the source image and its last channel lies inside the
      buffer, with no clamping needed. */
  lemma SourceReadInBounds(img: Image, newWidth: nat, newHeight: nat, x: nat, y: nat)
    requires img.Valid() && newWidth >= 1 && newHeight >= 1
    requires x < newWidth && y < newHeight
    ensures SourceCoord(x, img.width, newWidth) < img.width
    ensures SourceCoord(y, img.height, newHeight) < img.height
    ensures Offset(SourceCoord(x, img.width, newWidth), SourceCoord(y, img.height, newHeight), img.width)
              + (Channels - 1) < |img.data|
  {
    OffsetInBounds(SourceCoord(x, img.width, newWidth), SourceCoord(y, img.height, newHeight),
                   Channels - 1, img.width, img.height);
  }

  /** The four channel copies of one destination pixel: where they are
      written, where they are read, and that they agree with `Resize`. */
  lemma ResizePixelCopy(img: Image, newWidth: nat, newHeight: nat, x: nat, y: nat)
    requires img.Valid() && newWidth >= 1 && newHeight >= 1
    requires x < newWidth && y < newHeight
    ensures var index := Offset(x, y, newWidth);
            var originalIndex :=
              Offset(SourceCoord(x, img.width, newWidth), SourceCoord(y, img.height, newHeight), img.width);
            var expected := Resize(img, newWidth, newHeight).data;
            && index + 3 < |expected|
            && originalIndex + 3 < |img.data|
            && expected[index] == img.data[originalIndex]
            && expected[index + 1] == img.data[originalIndex + 1]
            && expected[index + 2] == img.data[originalIndex + 2]
            && expected[index + 3] == img.data[originalIndex + 3]
  {
    ResizeAt(img, newWidth, newHeight, x, y, 0);
    ResizeAt(img, newWidth, newHeight, x, y, 1);
    ResizeAt(img, newWidth, newHeight, x, y, 2);
    ResizeAt(img, newWidth, newHeight, x, y, 3);
  }

  /** The inner loop: fills row `y` of the destination, which starts at
      buffer index `rowStart`, pixel by pixel, leaving the rows above it as
      they were. */
  method FillRow(img: Image, newWidth: nat, newHeight: nat, y: nat, newData: array<byte>,
                 ghost rowStart: nat, ghost expected: seq<byte>)
    requires img.Valid() && newWidth >= 1 && newHeight >= 1 && y < newHeight
    requires expected == Resize(img, newWidth, newHeight).data && newData.Length == |expected|
    requires rowStart == Offset(0, y, newWidth) && rowStart + Channels * newWidth <= newData.Length
    requires forall i :: 0 <= i < rowStart ==> newData[i] == expected[i]
    modifies newData
    ensures forall i :: 0 <= i < rowStart + Channels * newWidth ==> newData[i] == expected[i]
  {
    var x := 0;
    while x < newWidth
      invariant 0 <= x <= newWidth
      invariant forall i :: 0 <= i < rowStart + Channels * x ==> newData[i] == expected[i]
    {
      var px := SourceCoord(x, img.width, newWidth);
      var py := SourceCoord(y, img.height, newHeight);
      var index := Offset(x, y, newWidth);
      var originalIndex := Offset(px, py, img.width);
      assert index == rowStart + Channels * x by {
        OffsetInRow(x, y, newWidth);
      }
      assert && originalIndex + 3 < |img.data|
             && expected[index] == img.data[originalIndex]
             && expected[index + 1] == img.data[originalIndex + 1]
             && expected[index + 2] == img.data[originalIndex + 2]
             && expected[index + 3] == img.data[originalIndex + 3] by {
        ResizePixelCopy(img, newWidth, newHeight, x, y);
      }

      newData[index] := img.data[originalIndex];
      newData[index + 1] := img.data[originalIndex + 1];
      newData[index + 2] := img.data[originalIndex + 2];
      newData[index + 3] := img.data[originalIndex + 3];
      x := x + 1;
    }
  }

  /** The nested row-major loop that fills a fresh zeroed buffer one pixel
      at a time; the result is the resampled image. */
  method NearestNeighborInterpolation(img: Image, newWidth: nat, newHeight: nat) returns (out: Image)
    requires img.Valid() && newWidth >= 1 && newHeight >= 1
    ensures out == Resize(img, newWidth, newHeight)
  {
    var newData := new byte[BufferLength(newWidth, newHeight)](_ => 0);
    ghost var expected := Resize(img, newWidth, newHeight).data;

    var y := 0;
    ghost var written := 0;
    while y < newHeight
      invariant 0 <= y <= newHeight
      invariant written == Offset(0, y, newWidth) <= newData.Length
      invariant forall i :: 0 <= i < written ==> newData[i] == expected[i]
    {
      assert written + Channels * newWidth == Offset(0, y + 1, newWidth) <= newData.Length by {
        OffsetInRow(newWidth, y, newWidth);
        OffsetNextRow(y, newWidth);
        RowStartWithin(y + 1, newWidth, newHeight);
      }
      FillRow(img, newWidth, newHeight, y, newData, written, expected);
      written := written + Channels * newWidth;
      y := y + 1;
    }
    assert newData[..] == expected by {
      OffsetEnd(newWidth, newHeight);
    }
    out := Image(newData[..], newWidth, newHeight);
  }

  /** Why a resize request cannot be served. */
  datatype ResizeError =
    | InvalidDimensions   // a source or target dimension is zero
    | BufferSizeMismatch  // the source buffer does not hold width * height pixels

  /** The outcome of a checked resize. */
  datatype ResizeResult = Resized(image: Image) | Rejected(error: ResizeError)

  /** Resize with the argument checks made explicit: zero dimensions and a
      buffer of the wrong length are reported instead of resampled. */
  function ResizeChecked(img: Image, newWidth: nat, newHeight: nat): (r: ResizeResult)
    ensures r.Resized? <==> img.Valid() && newWidth >= 1 && newHeight >= 1
    ensures r.Resized? ==> r.image == Resize(img, newWidth, newHeight)
    ensures r == Rejected(InvalidDimensions) <==>
            img.width == 0 || img.height == 0 || newWidth == 0 || newHeight == 0
    ensures r == Rejected(BufferSizeMismatch) <==>
            img.width >= 1 && img.height >= 1 && newWidth >= 1 && newHeight >= 1 &&
            |img.data| != Times(img.height, img.width) * Channels
  {
    if img.width == 0 || img.height == 0 || newWidth == 0 || newHeight == 0 then
      Rejected(InvalidDimensions)
    else if |img.data| != Times(img.height, img.width) * Channels then
      Rejected(BufferSizeMismatch)
    else
      Resized(Resize(img, newWidth, newHeight))
  }
}
