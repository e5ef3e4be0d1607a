/** Images wider than the detector's limit: it looks at a resized copy and so chooses its
    axis from a rounded aspect ratio, while the crop uses the image's own. */
module WideImages {
  import opened FaceCrop

  function Aspect(bounds: Rect): real
    requires bounds.Dy() > 0
  {
    bounds.Dx() as real / bounds.Dy() as real
  }

  lemma FloorBelow(x: real, n: int)
    requires n > 0
    ensures Trunc(x) < n <==> x < n as real
  {
  }

  lemma QuotientBelow(x: real, y: real, r: real)
    requires y > 0.0
    ensures Product(y, r) < x <==> r < x / y
  {
    var q := x / y;
    assert x == y * q;
    assert y * r - y * q == y * (r - q);
  }

  /** The dominant axis compares the wanted ratio with the image's aspect ratio: the
      truncation to an int makes no difference. */
  lemma AxisByAspect(bounds: Rect, ratio: real)
    requires bounds.Dx() > 0 && bounds.Dy() > 0
    ensures DominantAxisByRatio(bounds, ratio) == 0 <==> ratio < Aspect(bounds)
  {
    FloorBelow(Product(bounds.Dy() as real, ratio), bounds.Dx());
    QuotientBelow(bounds.Dx() as real, bounds.Dy() as real, ratio);
  }

  predicate AxesAgree(bounds: Rect, ratio: real)
    requires bounds.Dx() > 0
  {
    DominantAxisByRatio(bounds, ratio) == DominantAxisByRatio(Seen(bounds), ratio)
  }

  /** The ratio lies between two aspect ratios, the smaller one included. */
  predicate Between(x: real, y: real, ratio: real) {
    x <= ratio < y || y <= ratio < x
  }

  /** The exact condition: the detector and the crop choose different axes if and only if
      the wanted ratio lies between the aspect ratios of the image and of its resized
      copy.  It never does for an image that is not resized. */
  lemma AxesAgreeExactly(bounds: Rect, ratio: real)
    requires bounds.Dx() > 0 && bounds.Dy() > 0
    ensures AxesAgree(bounds, ratio) <==> !Between(Aspect(bounds), Aspect(Seen(bounds)), ratio)
    ensures bounds.Dx() <= MAX_IMAGE_WIDTH ==> AxesAgree(bounds, ratio)
  {
    AxisByAspect(bounds, ratio);
    AxisByAspect(Seen(bounds), ratio);
  }

  /** They agree at every ratio exactly when the resize keeps the proportions. */
  lemma AlwaysAgreeExactly(bounds: Rect)
    requires bounds.Dx() > MAX_IMAGE_WIDTH && bounds.Dy() > 0
    ensures (forall ratio :: AxesAgree(bounds, ratio)) <==>
            ResizedHeight(bounds.Dx(), bounds.Dy()) * bounds.Dx() == MAX_IMAGE_WIDTH * bounds.Dy()
  {
    var a, b := Aspect(bounds), Aspect(Seen(bounds));
    SameQuotient(bounds.Dx(), bounds.Dy(), MAX_IMAGE_WIDTH, ResizedHeight(bounds.Dx(), bounds.Dy()));
    if a == b {
      forall ratio ensures AxesAgree(bounds, ratio) {
        AxesAgreeExactly(bounds, ratio);
      }
    } else {
      var ratio := if a < b then a else b;
      AxesAgreeExactly(bounds, ratio);
      assert !AxesAgree(bounds, ratio);
    }
  }

  lemma SameQuotient(w: int, h: int, w': int, h': int)
    requires h > 0 && h' > 0
    ensures w as real / h as real == w' as real / h' as real <==> h' * w == w' * h
  {
    var a, b := w as real / h as real, w' as real / h' as real;
    assert a * h as real == w as real && b * h' as real == w' as real;
    assert (h' * w) as real - (w' * h) as real == (a - b) * (h as real * h' as real);
    assert h as real * h' as real > 0.0;
  }

  /** An image of 1300 by 1299 is resized to 650 by 650: at ratio 1 the position is
      measured down the image and used across it. */
  lemma WideAxesDiffer()
    ensures var bounds := Rect(0, 0, 1300, 1299);
            && Seen(bounds) == Rect(0, 0, 650, 650)
            && DominantAxisByRatio(bounds, 1.0) == 0 && DominantAxisByRatio(Seen(bounds), 1.0) == 1
  {
    TimesOne(1299);
    TimesOne(650);
  }

  lemma TimesOne(n: nat)
    ensures Times(n, 1.0) == n
  {
    assert Product(n as real, 1.0) == n as real;
  }

  // ---- how little such a crop loses ----

  lemma HeightIsRounded(w: int, h: int)
    requires w > 0
    ensures var k := ResizedHeight(w, h);
            1300 * h < 2 * w * k + w && (k > 1 ==> 2 * w * k <= 1300 * h + w)
  {
    var n, q := 1300 * h + w, (1300 * h + w) / (2 * w);
    assert n == 2 * w * q + n % (2 * w);
    if q < 1 {
      assert 2 * w * q <= 0;
    }
  }

  lemma AcrossBound(w: real, h: real, k: real, r: real)
    requires w > 0.0 && r > 0.0 && 2.0 * w * k <= 1300.0 * h + w && Product(k, r) >= 650.0
    ensures 1300.0 * (w - Product(h, r)) <= Product(w, r)
  {
    var kr, hr, wr := Product(k, r), Product(h, r), Product(w, r);
    assert w * (kr - 650.0) >= 0.0;
    assert (1300.0 * h + w - 2.0 * w * k) * r >= 0.0;
    assert (1300.0 * h + w - 2.0 * w * k) * r == 1300.0 * hr + wr - 2.0 * (w * kr);
    assert w * (kr - 650.0) == w * kr - 650.0 * w;
  }

  lemma DownBound(w: real, h: real, k: real, r: real)
    requires w > 0.0 && r > 0.0 && 1300.0 * h < 2.0 * w * k + w && Product(k, r) < 650.0
    ensures 1300.0 * (Product(h, r) - w) < Product(w, r)
  {
    var kr, hr, wr := Product(k, r), Product(h, r), Product(w, r);
    assert w * (650.0 - kr) > 0.0;
    assert (2.0 * w * k + w - 1300.0 * h) * r > 0.0;
    assert (2.0 * w * k + w - 1300.0 * h) * r == 2.0 * (w * kr) + wr - 1300.0 * hr;
    assert w * (650.0 - kr) == 650.0 * w - w * kr;
    Chained(w, w * kr, hr, wr);
  }

  lemma Chained(w: real, wkr: real, hr: real, wr: real)
    requires wkr < 650.0 * w && 1300.0 * hr < 2.0 * wkr + wr
    ensures 1300.0 * (hr - w) < wr
  {
  }

  /** The crop moves across the image but the detector measured down it: the window
      leaves out less than ratio / 1300 of the width, and a pixel. */
  lemma AcrossLosesLittle(bounds: Rect, ratio: real)
    requires bounds.Dx() > MAX_IMAGE_WIDTH && bounds.Dy() > 0 && Croppable(ratio)
    requires DominantAxisByRatio(bounds, ratio) == 0 && DominantAxisByRatio(Seen(bounds), ratio) == 1
    ensures (bounds.Dx() - WindowSize(bounds, ratio)) as real < Product(bounds.Dx() as real, ratio) / 1300.0 + 1.0
  {
    var w, h, k := bounds.Dx(), bounds.Dy(), ResizedHeight(bounds.Dx(), bounds.Dy());
    FloorBelow(Product(k as real, ratio), MAX_IMAGE_WIDTH);
    assert k > 1 by {
      assert Product(1.0, ratio) == ratio < 650.0;
    }
    HeightIsRounded(w, h);
    AsReals(w, h, k);
    AcrossBound(w as real, h as real, k as real, ratio);
    TruncAbove(Product(h as real, ratio));
  }

  lemma AsReals(w: int, h: int, k: int)
    ensures (2 * w * k) as real == 2.0 * w as real * k as real
    ensures (1300 * h + w) as real == 1300.0 * h as real + w as real
  {
  }

  lemma TruncAbove(x: real)
    ensures Trunc(x) as real > x - 1.0
  {
  }

  lemma RowsBound(w: int, h: int, ratio: real)
    requires w > 0 && ratio > 0.0 && Product(ResizedHeight(w, h) as real, ratio) < 650.0
    ensures h as real - w as real / ratio < w as real / 1300.0
  {
    var k := ResizedHeight(w, h);
    HeightIsRounded(w, h);
    AsReals(w, h, k);
    DownBound(w as real, h as real, k as real, ratio);
    PerRow(w as real, h as real, ratio);
  }

  /** The crop moves down the image but the detector measured across it: the window
      leaves out fewer than width / 1300 rows, and one more. */
  lemma DownLosesLittle(bounds: Rect, ratio: real)
    requires bounds.Dx() > MAX_IMAGE_WIDTH && bounds.Dy() > 0 && Croppable(ratio)
    requires DominantAxisByRatio(bounds, ratio) == 1 && DominantAxisByRatio(Seen(bounds), ratio) == 0
    ensures (bounds.Dy() - WindowSize(bounds, ratio)) as real < bounds.Dx() as real / 1300.0 + 1.0
  {
    FloorBelow(Product(ResizedHeight(bounds.Dx(), bounds.Dy()) as real, ratio), MAX_IMAGE_WIDTH);
    RowsBound(bounds.Dx(), bounds.Dy(), ratio);
    RowsLeftOut(bounds, ratio);
  }

  lemma RowsLeftOut(bounds: Rect, ratio: real)
    requires bounds.Dx() > 0 && bounds.Dy() > 0 && Croppable(ratio) && DominantAxisByRatio(bounds, ratio) == 1
    ensures (bounds.Dy() - WindowSize(bounds, ratio)) as real < bounds.Dy() as real - bounds.Dx() as real / ratio + 1.0
            || WindowSize(bounds, ratio) == bounds.Dy()
  {
    TruncAbove(bounds.Dx() as real / ratio);
  }

  lemma PerRow(w: real, h: real, r: real)
    requires r > 0.0 && 1300.0 * (Product(h, r) - w) < Product(w, r)
    ensures h - w / r < w / 1300.0
  {
    var q := w / r;
    assert w == q * r;
    assert 1300.0 * (h - q) * r < w * r by {
      assert 1300.0 * (h - q) * r == 1300.0 * (h * r - q * r);
    }
    assert (w - 1300.0 * (h - q)) * r > 0.0;
  }
}
