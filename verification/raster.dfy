/** The raster layout shared by the resampler's input and output: a flat,
    row-major buffer of 8-bit channels, four channels (red, green, blue,
    alpha) per pixel. */
module Raster {
  import opened Naturals

  /** One colour channel, as stored in a clamped 8-bit array. */
  type byte = b: int | 0 <= b < 256

  /** Number of channels stored per pixel. */
  const Channels: nat := 4

  /** A pixel buffer paired with its dimensions. */
  datatype Image = Image(data: seq<byte>, width: nat, height: nat) {

    /** The buffer holds exactly `height` rows of `width` pixels, and both
        dimensions are positive. */
    predicate Valid() {
      width >= 1 && height >= 1 && |data| == Times(height, width) * Channels
    }
  }

  /** The length of a buffer of `w` by `h` pixels, computed as the
      allocation computes it. */
  function BufferLength(w: nat, h: nat): (n: nat)
    ensures n == Times(h, w) * Channels
  {
    TimesIsProduct(h, w);
    w * h * Channels
  }

  /** Index of the first channel of pixel `(x, y)` in a row-major buffer
      whose rows are `w` pixels wide. */
  function Offset(x: nat, y: nat, w: nat): nat {
    (Times(y, w) + x) * Channels
  }

  /** The pixel row that buffer index `i` belongs to. */
  function RowOf(i: nat, w: nat): nat
    requires w >= 1
  {
    Quotient(i / Channels, w)
  }

  /** The pixel column that buffer index `i` belongs to. */
  function ColumnOf(i: nat, w: nat): nat
    requires w >= 1
  {
    QuotientBrackets(i / Channels, w);
    i / Channels - Times(RowOf(i, w), w)
  }

  /** The channel that buffer index `i` holds. */
  function ChannelOf(i: nat): nat {
    i % Channels
  }

  /** Every channel of every pixel of a `w` by `h` image lies inside its
      `Times(h, w) * Channels` buffer. */
  lemma OffsetInBounds(x: nat, y: nat, c: nat, w: nat, h: nat)
    requires x < w && y < h && c < Channels
    ensures Offset(x, y, w) + c < Times(h, w) * Channels
  {
    RowStartMonotone(y + 1, h, w);
  }

  /** Later rows start later. */
  lemma RowStartMonotone(y1: nat, y2: nat, w: nat)
    requires y1 <= y2
    ensures Offset(0, y1, w) <= Offset(0, y2, w)
  {
    TimesMonotone(y1, y2, w);
  }

  /** Row `y <= h` of a `w`-wide image starts inside, or at the end of,
      its `Times(h, w) * Channels` buffer. */
  lemma RowStartWithin(y: nat, w: nat, h: nat)
    requires y <= h
    ensures Offset(0, y, w) <= Times(h, w) * Channels
  {
    RowStartMonotone(y, h, w);
  }

  /** Decomposing the index of channel `c` of pixel `(x, y)` gives back
      `x`, `y` and `c`: the row-major layout is injective. */
  lemma OffsetRoundTrip(x: nat, y: nat, c: nat, w: nat)
    requires x < w && c < Channels
    ensures ColumnOf(Offset(x, y, w) + c, w) == x
    ensures RowOf(Offset(x, y, w) + c, w) == y
    ensures ChannelOf(Offset(x, y, w) + c) == c
  {
    var i := Offset(x, y, w) + c;
    assert i / Channels == Times(y, w) + x;
    QuotientUnique(y, Times(y, w) + x, w);
  }

  /** The row of a buffer index is the source's integer division
      `i / 4 / w`. */
  lemma RowOfIsDivision(i: nat, w: nat)
    requires w >= 1
    ensures RowOf(i, w) == i / Channels / w
  {
    QuotientIsDivision(i / Channels, w);
  }

  /** Every index of a `w` by `h` buffer is channel `ChannelOf(i)` of pixel
      `(ColumnOf(i), RowOf(i))`, and that pixel lies inside the image: the
      row-major layout is onto. */
  lemma DecomposeRoundTrip(i: nat, w: nat, h: nat)
    requires w >= 1 && i < Times(h, w) * Channels
    ensures ColumnOf(i, w) < w && RowOf(i, w) < h && ChannelOf(i) < Channels
    ensures Offset(ColumnOf(i, w), RowOf(i, w), w) + ChannelOf(i) == i
  {
    var y := RowOf(i, w);
    QuotientBrackets(i / Channels, w);
    if y >= h {
      TimesMonotone(h, y, w);
    }
  }

  /** Pixel `x` of a row starts `x` pixels after the row's first pixel. */
  lemma OffsetInRow(x: nat, y: nat, w: nat)
    ensures Offset(x, y, w) == Offset(0, y, w) + Channels * x
  {
  }

  /** One past the end of row `y` is the start of row `y + 1`. */
  lemma OffsetNextRow(y: nat, w: nat)
    ensures Offset(w, y, w) == Offset(0, y + 1, w)
  {
  }

  /** The start of the row after the last one is the end of the buffer. */
  lemma OffsetEnd(w: nat, h: nat)
    ensures Offset(0, h, w) == Times(h, w) * Channels
  {
  }

  /** Two channel slots of a `w`-wide buffer coincide only when they name
      the same pixel and the same channel. */
  lemma OffsetInjective(x1: nat, y1: nat, c1: nat, x2: nat, y2: nat, c2: nat, w: nat)
    requires x1 < w && c1 < Channels && x2 < w && c2 < Channels
    requires Offset(x1, y1, w) + c1 == Offset(x2, y2, w) + c2
    ensures x1 == x2 && y1 == y2 && c1 == c2
  {
    OffsetRoundTrip(x1, y1, c1, w);
    OffsetRoundTrip(x2, y2, c2, w);
  }

  /** The four channels of pixel `(x, y)`, in buffer order. */
  function Pixel(img: Image, x: nat, y: nat): (p: seq<byte>)
    requires img.Valid() && x < img.width && y < img.height
    ensures |p| == Channels
    ensures Offset(x, y, img.width) + Channels <= |img.data|
    ensures forall c :: 0 <= c < Channels ==> p[c] == img.data[Offset(x, y, img.width) + c]
  {
    var o := Offset(x, y, img.width);
    OffsetInBounds(x, y, Channels - 1, img.width, img.height);
    img.data[o..o + Channels]
  }
}
