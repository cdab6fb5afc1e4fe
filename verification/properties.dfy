/** Consequences of the nearest-neighbour rule: how the coordinate mapping
    behaves, the identity and single-pixel cases, and worked examples. */
module ResizeProperties {
  import opened Naturals
  import opened Raster
  import opened Interpolations

  /** `SourceCoord` is the floor of the real product `d * (src / dst)`, the
      value the scale factor and `Math.floor` compute in exact arithmetic. */
  lemma SourceCoordFloorsScale(d: nat, src: nat, dst: nat)
    requires dst >= 1
    ensures var p := SourceCoord(d, src, dst);
            var scaled := (d as real) * ((src as real) / (dst as real));
            p as real <= scaled < (p + 1) as real
  {
    var p := SourceCoord(d, src, dst);
    var n := d * src;
    var scaled := (d as real) * ((src as real) / (dst as real));
    assert scaled == (n as real) / (dst as real) by {
      assert (n as real) == (d as real) * (src as real);
    }
    RealQuotientBrackets(p, n, dst);
  }

  /** If `p * dst <= n < (p + 1) * dst` then `p <= n / dst < p + 1` over
      the reals. */
  lemma RealQuotientBrackets(p: nat, n: nat, dst: nat)
    requires dst >= 1 && p * dst <= n < (p + 1) * dst
    ensures p as real <= (n as real) / (dst as real) < (p + 1) as real
  {
    var q := (n as real) / (dst as real);
    assert q * (dst as real) == n as real;
    assert (p as real) * (dst as real) <= q * (dst as real);
    assert q * (dst as real) < ((p + 1) as real) * (dst as real);
  }

  /** Along either axis the sampled source coordinate never decreases as
      the destination coordinate grows. */
  lemma SourceCoordMonotone(a: nat, b: nat, src: nat, dst: nat)
    requires dst >= 1 && a <= b
    ensures SourceCoord(a, src, dst) <= SourceCoord(b, src, dst)
  {
    var pa := SourceCoord(a, src, dst);
    var pb := SourceCoord(b, src, dst);
    MulMonotone(a, b, src);
    if pa > pb {
      MulMonotone(pb + 1, pa, dst);
    }
  }

  /** With equal source and target sizes every coordinate maps to itself. */
  lemma SourceCoordIdentity(d: nat, n: nat)
    requires n >= 1
    ensures SourceCoord(d, n, n) == d
  {
    DivModUnique(d, 0, n);
  }

  /** Resizing to the image's own dimensions returns it byte for byte. */
  lemma ResizeIdentity(img: Image)
    requires img.Valid()
    ensures Resize(img, img.width, img.height) == img
  {
    var r := Resize(img, img.width, img.height);
    forall i | 0 <= i < |img.data|
      ensures r.data[i] == img.data[i]
    {
      DecomposeRoundTrip(i, img.width, img.height);
      var x, y, c := ColumnOf(i, img.width), RowOf(i, img.width), ChannelOf(i);
      SourceCoordIdentity(x, img.width);
      SourceCoordIdentity(y, img.height);
      ResizeAt(img, img.width, img.height, x, y, c);
    }
  }

  /** A one-pixel source fills every pixel of any target with its four
      channels. */
  lemma ResizeSinglePixel(img: Image, newWidth: nat, newHeight: nat)
    requires img.Valid() && img.width == 1 && img.height == 1
    requires newWidth >= 1 && newHeight >= 1
    ensures var r := Resize(img, newWidth, newHeight);
            forall x: nat, y: nat :: x < newWidth && y < newHeight ==> Pixel(r, x, y) == img.data
  {
    ResizeSourcesNearest(img, newWidth, newHeight);
    assert Pixel(img, 0, 0) == img.data;
  }

  /** The 2x2 red/green/blue/white image resized to 1x1 keeps only its
      top-left red pixel. */
  lemma ResizeTwoByTwoToOne()
    ensures var img := Image([255, 0, 0, 255,  0, 255, 0, 255,
                              0, 0, 255, 255,  255, 255, 255, 255], 2, 2);
            Resize(img, 1, 1).data == [255, 0, 0, 255]
  {
    var img := Image([255, 0, 0, 255,  0, 255, 0, 255,
                      0, 0, 255, 255,  255, 255, 255, 255], 2, 2);
    ResizeSourcesNearest(img, 1, 1);
    assert Pixel(Resize(img, 1, 1), 0, 0) == Resize(img, 1, 1).data;
    assert Pixel(img, 0, 0) == [255, 0, 0, 255];
  }

  /** Halving a 4x4 image samples every second pixel of every second row. */
  lemma ResizeDownscaleFourToTwo(img: Image)
    requires img.Valid() && img.width == 4 && img.height == 4
    ensures var r := Resize(img, 2, 2);
            && Pixel(r, 0, 0) == Pixel(img, 0, 0)
            && Pixel(r, 1, 0) == Pixel(img, 2, 0)
            && Pixel(r, 0, 1) == Pixel(img, 0, 2)
            && Pixel(r, 1, 1) == Pixel(img, 2, 2)
  {
    ResizeSourcesNearest(img, 2, 2);
    assert SourceCoord(1, 4, 2) == 2;
  }

  /** Doubling a 2x2 image repeats each source pixel over a 2x2 block. */
  lemma ResizeUpscaleTwoToFour(img: Image)
    requires img.Valid() && img.width == 2 && img.height == 2
    ensures var r := Resize(img, 4, 4);
            && Pixel(r, 0, 0) == Pixel(img, 0, 0)
            && Pixel(r, 1, 1) == Pixel(img, 0, 0)
            && Pixel(r, 2, 2) == Pixel(img, 1, 1)
            && Pixel(r, 3, 3) == Pixel(img, 1, 1)
  {
    ResizeSourcesNearest(img, 4, 4);
    assert SourceCoord(1, 2, 4) == 0;
    assert SourceCoord(2, 2, 4) == 1;
    assert SourceCoord(3, 2, 4) == 1;
  }
}
