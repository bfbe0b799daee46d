/**
 * Greyscale erosion and dilation of fingerprint images, and the laws of
 * mathematical morphology that they obey with a centrally symmetric kernel.
 */
module Morphology {
  import opened Words

  /** An image of width * height pixels, row by row, and a kernel of size * size weights of which the sign matters. */
  datatype Setup = Setup(width: nat, height: nat, kernel: seq<int>, size: nat) {

    predicate Valid() {
      size % 2 == 1 && |kernel| == size * size
    }

    function Pixels(): (n: nat) { width * height }

    predicate IsImage(img: Bytes) { |img| == Pixels() }
  }

  // ----- Which pixels a kernel position reaches -----

  /** Column and row of a pixel. */
  function Col(s: Setup, p: nat): (x: nat)
    requires p < s.Pixels()
    ensures x < s.width
  {
    assert s.width > 0;
    p % s.width
  }

  function Row(s: Setup, p: nat): (y: nat)
    requires p < s.Pixels()
  {
    assert s.width > 0;
    p / s.width
  }

  /** Kernel position k, seen from pixel p, lies at this column and row. */
  function TargetX(s: Setup, p: nat, k: nat): (x: int)
    requires p < s.Pixels() && s.size > 0
  {
    Col(s, p) + (k % s.size - s.size / 2)
  }

  function TargetY(s: Setup, p: nat, k: nat): (y: int)
    requires p < s.Pixels() && s.size > 0
  {
    Row(s, p) + (k / s.size - s.size / 2)
  }

  /** Kernel position k is set and lies inside the image. */
  predicate Active(s: Setup, p: nat, k: nat)
    requires s.Valid() && p < s.Pixels() && k < |s.kernel|
  {
    s.kernel[k] > 0 && 0 <= TargetX(s, p, k) < s.width && 0 <= TargetY(s, p, k) < s.height
  }

  function Target(s: Setup, p: nat, k: nat): (q: nat)
    requires s.Valid() && p < s.Pixels() && k < |s.kernel| && Active(s, p, k)
    ensures q < s.Pixels()
  {
    IndexInRange(s, TargetX(s, p, k), TargetY(s, p, k));
    TargetY(s, p, k) * s.width + TargetX(s, p, k)
  }

  lemma IndexInRange(s: Setup, x: nat, y: nat)
    requires x < s.width && y < s.height
    ensures y * s.width + x < s.Pixels()
  {
    MulMono(y + 1, s.height, s.width);
  }

  lemma MulMono(a: nat, b: nat, c: nat)
    requires a <= b
    ensures a * c <= b * c
  {
  }

  lemma RowCol(w: nat, x: nat, y: nat)
    requires x < w
    ensures (y * w + x) / w == y && (y * w + x) % w == x
  {
    var p := y * w + x;
    var q, r := p / w, p % w;
    assert p == q * w + r;
    if q < y {
      MulMono(q + 1, y, w);
    } else if q > y {
      MulMono(y + 1, q, w);
    }
  }

  lemma RowInRange(s: Setup, p: nat)
    requires p < s.Pixels()
    ensures s.width > 0 && p / s.width < s.height
    ensures p == p / s.width * s.width + p % s.width
  {
    assert s.width > 0;
    var q := p / s.width;
    if q >= s.height {
      MulMono(s.height, q, s.width);
    }
  }

  // ----- The operators -----

  /** The least pixel under the first n kernel positions, 255 if there is none. */
  function MinTo(s: Setup, img: Bytes, p: nat, n: nat): (m: u8)
    requires s.Valid() && s.IsImage(img) && p < s.Pixels() && n <= |s.kernel|
  {
    if n == 0 then 255
    else
      var m := MinTo(s, img, p, n - 1);
      if Active(s, p, n - 1) && img[Target(s, p, n - 1)] < m then img[Target(s, p, n - 1)] else m
  }

  /** The greatest pixel under the first n kernel positions, 0 if there is none. */
  function MaxTo(s: Setup, img: Bytes, p: nat, n: nat): (m: u8)
    requires s.Valid() && s.IsImage(img) && p < s.Pixels() && n <= |s.kernel|
  {
    if n == 0 then 0
    else
      var m := MaxTo(s, img, p, n - 1);
      if Active(s, p, n - 1) && img[Target(s, p, n - 1)] > m then img[Target(s, p, n - 1)] else m
  }

  function Eroded(s: Setup, img: Bytes): (r: Bytes)
    requires s.Valid() && s.IsImage(img)
    ensures s.IsImage(r)
  {
    seq(s.Pixels(), p requires 0 <= p < s.Pixels() => MinTo(s, img, p, |s.kernel|))
  }

  function Dilated(s: Setup, img: Bytes): (r: Bytes)
    requires s.Valid() && s.IsImage(img)
    ensures s.IsImage(r)
  {
    seq(s.Pixels(), p requires 0 <= p < s.Pixels() => MaxTo(s, img, p, |s.kernel|))
  }

  /** The erosion is the greatest value below all pixels under the kernel. */
  lemma {:induction false} MinMeans(s: Setup, img: Bytes, p: nat, n: nat, v: u8)
    requires s.Valid() && s.IsImage(img) && p < s.Pixels() && n <= |s.kernel|
    ensures v <= MinTo(s, img, p, n) <==> forall k :: 0 <= k < n && Active(s, p, k) ==> v <= img[Target(s, p, k)]
  {
    if n > 0 {
      MinMeans(s, img, p, n - 1, v);
    }
  }

  /** The dilation is the least value above all pixels under the kernel. */
  lemma {:induction false} MaxMeans(s: Setup, img: Bytes, p: nat, n: nat, v: u8)
    requires s.Valid() && s.IsImage(img) && p < s.Pixels() && n <= |s.kernel|
    ensures MaxTo(s, img, p, n) <= v <==> forall k :: 0 <= k < n && Active(s, p, k) ==> img[Target(s, p, k)] <= v
  {
    if n > 0 {
      MaxMeans(s, img, p, n - 1, v);
    }
  }

  // ----- Symmetric kernels -----

  /** The kernel looks the same when turned by half a turn. */
  predicate Symmetric(s: Setup)
    requires s.Valid()
  {
    forall k :: 0 <= k < |s.kernel| ==> (s.kernel[k] > 0 <==> s.kernel[|s.kernel| - 1 - k] > 0)
  }

  lemma OppositePosition(size: nat, k: nat)
    requires size % 2 == 1 && k < size * size
    ensures var k' := size * size - 1 - k;
            k' / size - size / 2 == -(k / size - size / 2) && k' % size - size / 2 == -(k % size - size / 2)
  {
    var r, c := k / size, k % size;
    assert k == r * size + c;
    RowBelow(size, k);
    assert size * size - 1 - k == (size - 1 - r) * size + (size - 1 - c) by {
      assert (size - 1 - r) * size == size * size - size - r * size;
    }
    RowCol(size, size - 1 - c, size - 1 - r);
  }

  lemma RowBelow(size: nat, k: nat)
    requires size > 0 && k < size * size
    ensures k / size < size
  {
    if k / size >= size {
      MulMono(size, k / size, size);
    }
  }

  /** If kernel position k leads from pixel p to q, the opposite position leads back. */
  lemma WayBack(s: Setup, p: nat, k: nat)
    requires s.Valid() && Symmetric(s) && p < s.Pixels() && k < |s.kernel| && Active(s, p, k)
    ensures var q, k' := Target(s, p, k), |s.kernel| - 1 - k;
            Active(s, q, k') && Target(s, q, k') == p
  {
    var q, k' := Target(s, p, k), |s.kernel| - 1 - k;
    OppositePosition(s.size, k);
    RowInRange(s, p);
    RowCol(s.width, TargetX(s, p, k), TargetY(s, p, k));
    assert TargetX(s, q, k') == Col(s, p) && TargetY(s, q, k') == Row(s, p);
  }

  // ----- The laws -----

  predicate Below(f: Bytes, g: Bytes) {
    |f| == |g| && forall p :: 0 <= p < |f| ==> f[p] <= g[p]
  }

  /** Dilation and erosion are adjoint, also at the border of the image. */
  lemma Adjunction(s: Setup, f: Bytes, g: Bytes)
    requires s.Valid() && Symmetric(s) && s.IsImage(f) && s.IsImage(g)
    ensures Below(Dilated(s, f), g) <==> Below(f, Eroded(s, g))
  {
    var n := |s.kernel|;
    if Below(Dilated(s, f), g) {
      forall q | 0 <= q < s.Pixels() ensures f[q] <= Eroded(s, g)[q] {
        forall k | 0 <= k < n && Active(s, q, k) ensures f[q] <= g[Target(s, q, k)] {
          var p := Target(s, q, k);
          WayBack(s, q, k);
          assert Dilated(s, f)[p] <= g[p];
          MaxMeans(s, f, p, n, g[p]);
          assert f[Target(s, p, n - 1 - k)] <= g[p];
        }
        MinMeans(s, g, q, n, f[q]);
      }
    }
    if Below(f, Eroded(s, g)) {
      forall p | 0 <= p < s.Pixels() ensures Dilated(s, f)[p] <= g[p] {
        forall k | 0 <= k < n && Active(s, p, k) ensures f[Target(s, p, k)] <= g[p] {
          var q := Target(s, p, k);
          WayBack(s, p, k);
          assert f[q] <= Eroded(s, g)[q];
          MinMeans(s, g, q, n, f[q]);
          assert f[q] <= g[Target(s, q, n - 1 - k)];
        }
        MaxMeans(s, f, p, n, g[p]);
      }
    }
  }

  /** Erosion followed by dilation. */
  function Opened(s: Setup, f: Bytes): (r: Bytes)
    requires s.Valid() && s.IsImage(f)
    ensures s.IsImage(r)
  {
    Dilated(s, Eroded(s, f))
  }

  /** Dilation followed by erosion. */
  function Closed(s: Setup, f: Bytes): (r: Bytes)
    requires s.Valid() && s.IsImage(f)
    ensures s.IsImage(r)
  {
    Eroded(s, Dilated(s, f))
  }

  /** Both operators keep the order of images. This needs no symmetry. */
  lemma Monotone(s: Setup, f: Bytes, g: Bytes)
    requires s.Valid() && s.IsImage(f) && s.IsImage(g) && Below(f, g)
    ensures Below(Dilated(s, f), Dilated(s, g)) && Below(Eroded(s, f), Eroded(s, g))
  {
    var n := |s.kernel|;
    forall p | 0 <= p < s.Pixels() ensures Dilated(s, f)[p] <= Dilated(s, g)[p] && Eroded(s, f)[p] <= Eroded(s, g)[p] {
      MaxMeans(s, g, p, n, Dilated(s, g)[p]);
      MaxMeans(s, f, p, n, Dilated(s, g)[p]);
      MinMeans(s, f, p, n, Eroded(s, f)[p]);
      MinMeans(s, g, p, n, Eroded(s, f)[p]);
    }
  }

  lemma BelowAntisymmetric(f: Bytes, g: Bytes)
    requires Below(f, g) && Below(g, f)
    ensures f == g
  {
  }

  /** Opening never brightens a pixel, and opening twice is opening once. */
  lemma OpeningLaws(s: Setup, f: Bytes)
    requires s.Valid() && Symmetric(s) && s.IsImage(f)
    ensures Below(Opened(s, f), f)
    ensures Opened(s, Opened(s, f)) == Opened(s, f)
  {
    var e := Eroded(s, f);
    Adjunction(s, e, f);
    Adjunction(s, e, Opened(s, f));
    Monotone(s, e, Eroded(s, Opened(s, f)));
    Adjunction(s, Eroded(s, Opened(s, f)), Opened(s, f));
    BelowAntisymmetric(Opened(s, Opened(s, f)), Opened(s, f));
  }

  /** Closing never darkens a pixel, and closing twice is closing once. */
  lemma ClosingLaws(s: Setup, f: Bytes)
    requires s.Valid() && Symmetric(s) && s.IsImage(f)
    ensures Below(f, Closed(s, f))
    ensures Closed(s, Closed(s, f)) == Closed(s, f)
  {
    var d := Dilated(s, f);
    Adjunction(s, f, d);
    Adjunction(s, Closed(s, f), d);
    Monotone(s, Dilated(s, Closed(s, f)), d);
    Adjunction(s, Closed(s, f), Dilated(s, Closed(s, f)));
    BelowAntisymmetric(Closed(s, Closed(s, f)), Closed(s, f));
  }

  function Negative(f: Bytes): (r: Bytes)
    ensures |r| == |f| && forall p :: 0 <= p < |f| ==> r[p] == 255 - f[p]
  {
    seq(|f|, p requires 0 <= p < |f| => 255 - f[p])
  }

  lemma {:induction false} MinOfNegative(s: Setup, f: Bytes, p: nat, n: nat)
    requires s.Valid() && s.IsImage(f) && p < s.Pixels() && n <= |s.kernel|
    ensures MinTo(s, Negative(f), p, n) == 255 - MaxTo(s, f, p, n)
  {
    if n > 0 {
      MinOfNegative(s, f, p, n - 1);
    }
  }

  /** Each operator is the other one on the negative. This needs no symmetry. */
  lemma Duality(s: Setup, f: Bytes)
    requires s.Valid() && s.IsImage(f)
    ensures Eroded(s, Negative(f)) == Negative(Dilated(s, f))
    ensures Dilated(s, Negative(f)) == Negative(Eroded(s, f))
  {
    forall p | 0 <= p < s.Pixels() ensures Eroded(s, Negative(f))[p] == 255 - Dilated(s, f)[p] {
      MinOfNegative(s, f, p, |s.kernel|);
    }
    assert Negative(Negative(f)) == f;
    forall p | 0 <= p < s.Pixels() ensures Dilated(s, Negative(f))[p] == 255 - Eroded(s, f)[p] {
      MinOfNegative(s, Negative(f), p, |s.kernel|);
    }
  }

  // ----- The loops -----

  predicate InImage(s: Setup, x: nat, y: nat) {
    x < s.width && y < s.height
  }

  /** The index of the pixel in column x and row y. */
  function Index(s: Setup, x: nat, y: nat): (p: nat)
    requires InImage(s, x, y)
    ensures p < s.Pixels() && Col(s, p) == x && Row(s, p) == y
  {
    IndexInRange(s, x, y);
    RowCol(s.width, x, y);
    y * s.width + x
  }

  /** The kernel position of row r and column c, as the loops number it. */
  lemma KernelIndex(s: Setup, x: nat, y: nat, r: nat, c: nat)
    requires s.Valid() && InImage(s, x, y) && r < s.size && c < s.size
    ensures TargetX(s, Index(s, x, y), r * s.size + c) == x + (c - s.size / 2)
    ensures TargetY(s, Index(s, x, y), r * s.size + c) == y + (r - s.size / 2)
  {
    RowCol(s.size, c, r);
  }

  lemma NextRow(size: nat, r: nat)
    ensures r * size + size == (r + 1) * size
  {
  }

  /** The innermost statement of erode() at kernel row r and column c, which is position k. */
  method MinStep(img: array<u8>, kernel: array<int>, s: Setup, x: nat, y: nat, r: nat, c: nat, k: nat, minPixel: u8)
    returns (m: u8)
    requires s.Valid() && kernel[..] == s.kernel && s.IsImage(img[..]) && InImage(s, x, y) && r < s.size && c < s.size
    requires k == r * s.size + c < |s.kernel| && minPixel == MinTo(s, img[..], Index(s, x, y), k)
    ensures m == MinTo(s, img[..], Index(s, x, y), k + 1)
  {
    KernelIndex(s, x, y, r, c);
    m := minPixel;
    var pixelX, pixelY := x + (c - s.size / 2), y + (r - s.size / 2);
    if 0 <= pixelX < s.width && 0 <= pixelY < s.height {
      var pixelIdx := Index(s, pixelX, pixelY);
      assert kernel[k] == s.kernel[k];
      if kernel[k] > 0 {
        m := if img[pixelIdx] < minPixel then img[pixelIdx] else minPixel;
      }
    }
  }

  /** The two inner loops of erode() for the pixel in column x and row y. */
  method WindowMin(img: array<u8>, kernel: array<int>, s: Setup, x: nat, y: nat) returns (minPixel: u8)
    requires s.Valid() && kernel[..] == s.kernel && s.IsImage(img[..]) && InImage(s, x, y)
    ensures minPixel == MinTo(s, img[..], Index(s, x, y), |s.kernel|)
  {
    var half: int := s.size / 2;
    minPixel := 255;
    var ky := -half;
    var k := 0;
    while ky <= half
      invariant -half <= ky <= half + 1 && k == (ky + half) * s.size <= |s.kernel|
      invariant minPixel == MinTo(s, img[..], Index(s, x, y), k)
    {
      ghost var row := k;
      NextRow(s.size, ky + half);
      MulMono(ky + half + 1, s.size, s.size);
      var kx := -half;
      while kx <= half
        invariant -half <= kx <= half + 1 && k == row + (kx + half)
        invariant minPixel == MinTo(s, img[..], Index(s, x, y), k)
      {
        minPixel := MinStep(img, kernel, s, x, y, ky + half, kx + half, k, minPixel);
        kx := kx + 1;
        k := k + 1;
      }
      ky := ky + 1;
    }
  }

  /** The innermost statement of dilate() at kernel row r and column c, which is position k. */
  method MaxStep(img: array<u8>, kernel: array<int>, s: Setup, x: nat, y: nat, r: nat, c: nat, k: nat, maxPixel: u8)
    returns (m: u8)
    requires s.Valid() && kernel[..] == s.kernel && s.IsImage(img[..]) && InImage(s, x, y) && r < s.size && c < s.size
    requires k == r * s.size + c < |s.kernel| && maxPixel == MaxTo(s, img[..], Index(s, x, y), k)
    ensures m == MaxTo(s, img[..], Index(s, x, y), k + 1)
  {
    KernelIndex(s, x, y, r, c);
    m := maxPixel;
    var pixelX, pixelY := x + (c - s.size / 2), y + (r - s.size / 2);
    if 0 <= pixelX < s.width && 0 <= pixelY < s.height {
      var pixelIdx := Index(s, pixelX, pixelY);
      assert kernel[k] == s.kernel[k];
      if kernel[k] > 0 {
        m := if img[pixelIdx] > maxPixel then img[pixelIdx] else maxPixel;
      }
    }
  }

  /** The two inner loops of dilate() for the pixel in column x and row y. */
  method WindowMax(img: array<u8>, kernel: array<int>, s: Setup, x: nat, y: nat) returns (maxPixel: u8)
    requires s.Valid() && kernel[..] == s.kernel && s.IsImage(img[..]) && InImage(s, x, y)
    ensures maxPixel == MaxTo(s, img[..], Index(s, x, y), |s.kernel|)
  {
    var half: int := s.size / 2;
    maxPixel := 0;
    var ky := -half;
    var k := 0;
    while ky <= half
      invariant -half <= ky <= half + 1 && k == (ky + half) * s.size <= |s.kernel|
      invariant maxPixel == MaxTo(s, img[..], Index(s, x, y), k)
    {
      ghost var row := k;
      NextRow(s.size, ky + half);
      MulMono(ky + half + 1, s.size, s.size);
      var kx := -half;
      while kx <= half
        invariant -half <= kx <= half + 1 && k == row + (kx + half)
        invariant maxPixel == MaxTo(s, img[..], Index(s, x, y), k)
      {
        maxPixel := MaxStep(img, kernel, s, x, y, ky + half, kx + half, k, maxPixel);
        kx := kx + 1;
        k := k + 1;
      }
      ky := ky + 1;
    }
  }

  /** erode(). An even kernel size would index the kernel past its end. */
  method Erode(img: array<u8>, width: nat, height: nat, kernel: array<int>, size: nat)
    requires Setup(width, height, kernel[..], size).Valid() && img.Length == width * height && img as object != kernel
    modifies img
    ensures img[..] == Eroded(Setup(width, height, kernel[..], size), old(img[..]))
  {
    ghost var before := img[..];
    var s := Setup(width, height, kernel[..], size);
    var newData := new u8[width * height](_ => 0);
    for y := 0 to height
      invariant img[..] == before && s.kernel == kernel[..] && y * width <= newData.Length
      invariant forall p :: 0 <= p < y * width ==> newData[p] == Eroded(s, before)[p]
    {
      MulMono(y + 1, height, width);
      NextRow(width, y);
      for x := 0 to width
        invariant img[..] == before && s.kernel == kernel[..]
        invariant forall p :: 0 <= p < y * width + x ==> newData[p] == Eroded(s, before)[p]
      {
        var minPixel := WindowMin(img, kernel, s, x, y);
        var newIdx := y * width + x;
        assert newIdx == Index(s, x, y);
        newData[newIdx] := minPixel;
      }
    }
    CopyBack(img, newData);
  }

  /** dilate() */
  method Dilate(img: array<u8>, width: nat, height: nat, kernel: array<int>, size: nat)
    requires Setup(width, height, kernel[..], size).Valid() && img.Length == width * height && img as object != kernel
    modifies img
    ensures img[..] == Dilated(Setup(width, height, kernel[..], size), old(img[..]))
  {
    ghost var before := img[..];
    var s := Setup(width, height, kernel[..], size);
    var newData := new u8[width * height](_ => 0);
    for y := 0 to height
      invariant img[..] == before && s.kernel == kernel[..] && y * width <= newData.Length
      invariant forall p :: 0 <= p < y * width ==> newData[p] == Dilated(s, before)[p]
    {
      MulMono(y + 1, height, width);
      NextRow(width, y);
      for x := 0 to width
        invariant img[..] == before && s.kernel == kernel[..]
        invariant forall p :: 0 <= p < y * width + x ==> newData[p] == Dilated(s, before)[p]
      {
        var maxPixel := WindowMax(img, kernel, s, x, y);
        var newIdx := y * width + x;
        assert newIdx == Index(s, x, y);
        newData[newIdx] := maxPixel;
      }
    }
    CopyBack(img, newData);
  }

  method CopyBack(img: array<u8>, newData: array<u8>)
    requires img.Length == newData.Length && img != newData
    modifies img
    ensures img[..] == newData[..] == old(newData[..])
  {
    for i := 0 to img.Length
      invariant newData[..] == old(newData[..]) && img[..i] == newData[..i]
    {
      img[i] := newData[i];
    }
  }

  // ----- Kernels -----

  function CrossWeight(size: nat, k: nat): (w: int)
    requires size > 0
  {
    if k / size == size / 2 || k % size == size / 2 then 1 else 0
  }

  /** In a kernel of odd size, these are the row and the column with as many before as behind them. */
  lemma CrossIsInTheMiddle(size: nat, i: nat, j: nat)
    requires size % 2 == 1 && i < size && j < size
    ensures CrossWeight(size, i * size + j) == if i == size - 1 - i || j == size - 1 - j then 1 else 0
  {
    RowCol(size, j, i);
  }

  /** generate_cross_kernel() */
  method GenerateCrossKernel(size: nat, kernel: array<int>)
    requires kernel.Length == size * size
    modifies kernel
    ensures forall k :: 0 <= k < kernel.Length ==> size > 0 && kernel[k] == CrossWeight(size, k)
  {
    var half := size / 2;
    for i := 0 to size
      invariant i * size <= kernel.Length
      invariant forall k :: 0 <= k < i * size ==> kernel[k] == CrossWeight(size, k)
    {
      MulMono(i + 1, size, size);
      NextRow(size, i);
      for j := 0 to size
        invariant forall k :: 0 <= k < i * size + j ==> kernel[k] == CrossWeight(size, k)
      {
        RowCol(size, j, i);
        if i == half || j == half {
          kernel[i * size + j] := 1;
        } else {
          kernel[i * size + j] := 0;
        }
      }
    }
  }

  /** generate_rectangular_kernel() */
  method GenerateRectangularKernel(size: nat, kernel: array<int>)
    requires kernel.Length == size * size
    modifies kernel
    ensures forall k :: 0 <= k < kernel.Length ==> kernel[k] == 1
  {
    for i := 0 to size
      invariant i * size <= kernel.Length
      invariant forall k :: 0 <= k < i * size ==> kernel[k] == 1
    {
      MulMono(i + 1, size, size);
      NextRow(size, i);
      for j := 0 to size
        invariant forall k :: 0 <= k < i * size + j ==> kernel[k] == 1
      {
        kernel[i * size + j] := 1;
      }
    }
  }

  /** The generated kernels of odd size meet the condition of the laws. */
  lemma GeneratedKernelsAreSymmetric(s: Setup)
    requires s.Valid()
    requires (forall k :: 0 <= k < |s.kernel| ==> s.kernel[k] == CrossWeight(s.size, k)) ||
             (forall k :: 0 <= k < |s.kernel| ==> s.kernel[k] == 1)
    ensures Symmetric(s)
  {
    forall k | 0 <= k < |s.kernel| ensures s.kernel[k] > 0 <==> s.kernel[|s.kernel| - 1 - k] > 0 {
      OppositePosition(s.size, k);
    }
  }
}
