/**
  Placement of a cropped page picture on a slide: the picture is scaled to
  fill the picture area in one dimension without overflowing the other,
  keeping its aspect ratio, and is centred, below a band reserved for the
  title. Lengths are in English Metric Units (914400 per inch), computed
  exactly over the reals.
 */
module Layout {
  import RealFacts

  const EmuPerInch: real := 914400.0

  /** The picture area: 10 inches wide, 6 inches high. */
  const SlideWidth: real := 10.0 * EmuPerInch
  const SlideHeight: real := 6.0 * EmuPerInch

  /** The band above the picture area kept for the title: 1 inch. */
  const TitleBand: real := 1.0 * EmuPerInch

  /** Where a picture goes on the slide and the size it is drawn at. */
  datatype Placement = Placement(left: real, top: real, width: real, height: real)

  /** Dividing `a` by a ratio larger than `a / t` gives less than `t`. */
  lemma DivByLargerRatio(a: real, t: real, r: real)
    requires a > 0.0 && t > 0.0 && r > a / t
    ensures a / r < t
  {
    var q := a / t;
    assert q * t == a;
    assert r > 0.0 by { RealFacts.MulPositive(q, t); }
    var d := a / r;
    assert d * r == a;
    RealFacts.MulPositive(r - q, t);
    assert (r - q) * t == r * t - a;
    RealFacts.MulPositive(t - d, r);
    assert (t - d) * r == t * r - a;
  }

  /** Dividing `a` by `a / r` gives back `r`. */
  lemma DivByQuotient(a: real, r: real)
    requires a > 0.0 && r > 0.0
    ensures a / r > 0.0 && a / (a / r) == r
  {
    var d := a / r;
    assert d * r == a;
    RealFacts.MulPositive(d, r);
    assert a / d * d == a;
    assert (a / d - r) * d == 0.0;
    RealFacts.MulPositive(a / d - r, d);
    RealFacts.MulPositive(r - a / d, d);
  }

  /**
    The drawn size of a picture `croppedWidth` by `croppedHeight` pixels.
    A picture relatively wider than the picture area is fitted to its width,
    any other to its height. The size never exceeds the picture area, the
    fitted dimension equals it, and the aspect ratio is the picture's.
   */
  function FitSize(croppedWidth: real, croppedHeight: real): (size: (real, real))
    requires croppedWidth >= 0.0 && croppedHeight > 0.0
    ensures 0.0 <= size.0 <= SlideWidth && 0.0 < size.1 <= SlideHeight
    ensures croppedWidth / croppedHeight > SlideWidth / SlideHeight ==> size.0 == SlideWidth
    ensures croppedWidth / croppedHeight <= SlideWidth / SlideHeight ==> size.1 == SlideHeight
    ensures size.0 / size.1 == croppedWidth / croppedHeight
  {
    var imageRatio := croppedWidth / croppedHeight;
    var slideRatio := SlideWidth / SlideHeight;
    if imageRatio > slideRatio then
      DivByLargerRatio(SlideWidth, SlideHeight, imageRatio);
      DivByQuotient(SlideWidth, imageRatio);
      (SlideWidth, SlideWidth / imageRatio)
    else
      assert imageRatio >= 0.0 by { RealFacts.MulPositive(imageRatio, croppedHeight); }
      (SlideHeight * imageRatio, SlideHeight)
  }

  /**
    The placement of a picture: its fitted size, centred horizontally on the
    picture area and vertically on the area below the title band. It lies
    wholly inside that area, so it never reaches into the title band.
   */
  function Place(croppedWidth: real, croppedHeight: real): (p: Placement)
    requires croppedWidth >= 0.0 && croppedHeight > 0.0
    ensures (p.width, p.height) == FitSize(croppedWidth, croppedHeight)
    ensures p.left == (SlideWidth - p.width) / 2.0 && p.left >= 0.0
    ensures p.top == (SlideHeight - p.height) / 2.0 + TitleBand && p.top >= TitleBand
    ensures p.left + p.width + p.left == SlideWidth
    ensures p.top + p.height <= SlideHeight + TitleBand
  {
    var size := FitSize(croppedWidth, croppedHeight);
    Placement((SlideWidth - size.0) / 2.0, (SlideHeight - size.1) / 2.0 + TitleBand, size.0, size.1)
  }

  /** The width is the picture's width scaled by the same factor as its height. */
  lemma PlaceScalesUniformly(croppedWidth: real, croppedHeight: real)
    requires croppedWidth >= 0.0 && croppedHeight > 0.0
    ensures var p := Place(croppedWidth, croppedHeight);
            p.width == croppedWidth * (p.height / croppedHeight)
  {
    var p := Place(croppedWidth, croppedHeight);
    var s := p.height / croppedHeight;
    assert s * croppedHeight == p.height;
    var r := croppedWidth / croppedHeight;
    assert r * croppedHeight == croppedWidth;
    assert p.width / p.height == r;
    assert p.width == r * p.height;
    assert croppedWidth * s == r * croppedHeight * s;
  }
}
