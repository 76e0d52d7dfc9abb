/** Pixels, images, the tile grid and the synthetic mask of the preprocessing
    step. An image is what cv2.imread returns by default: height × width
    pixels of three 8-bit channels in B, G, R order. */
module Raster {

  newtype byte = x: int | 0 <= x < 256

  datatype Pixel = Pixel(b: byte, g: byte, r: byte)

  /** The value np.zeros gives every pixel of a padded tile. */
  const Black: Pixel := Pixel(0, 0, 0)

  datatype Image = Image(height: nat, width: nat, px: seq<seq<Pixel>>)
  {
    /** The shape (height, width, 3) holds: every row has `width` pixels. */
    predicate Valid()
    {
      |px| == height && forall i :: 0 <= i < |px| ==> |px[i]| == width
    }
  }

  /** cv2.cvtColor(..., COLOR_BGR2GRAY) on one 8-bit pixel: OpenCV's fixed-point
      weighting 0.114 B + 0.587 G + 0.299 R, scaled by 2^14 and rounded. */
  function Gray(p: Pixel): byte
  {
    var n := p.b as int * 1868 + p.g as int * 9617 + p.r as int * 4899 + 8192;
    assert n < 256 * 16384;
    (n / 16384) as byte
  }

  /** cv2.threshold(v, t, 255, THRESH_BINARY) on one 8-bit value. */
  function Threshold(v: byte, t: int): byte
  {
    if v as int > t then 255 else 0
  }

  /** The mask tile: grey conversion, then binary threshold at t. */
  function Mask(tile: seq<seq<Pixel>>, t: int): (m: seq<seq<byte>>)
    ensures |m| == |tile|
    ensures forall i :: 0 <= i < |m| ==> |m[i]| == |tile[i]|
    ensures forall i, j :: 0 <= i < |m| && 0 <= j < |m[i]| ==>
      (m[i][j] == 0 || m[i][j] == 255) && (m[i][j] == 255 <==> Gray(tile[i][j]) as int > t)
  {
    seq(|tile|, i requires 0 <= i < |tile| =>
      seq(|tile[i]|, j requires 0 <= j < |tile[i]| => Threshold(Gray(tile[i][j]), t)))
  }

  /** ceil(n / s) */
  function CeilDiv(n: nat, s: nat): (q: nat)
    requires s > 0
    ensures n <= q * s
    ensures q == 0 || (q - 1) * s < n
  {
    var m := n + s - 1;
    assert m == (m / s) * s + m % s;
    m / s
  }

  lemma MulMonotone(a: nat, b: nat, s: nat)
    requires a <= b
    ensures a * s <= b * s
  {
  }

  /** Division by s is determined by quotient and remainder. */
  lemma DivUnique(v: nat, k: nat, r: nat, s: nat)
    requires s > 0 && r < s && v == k * s + r
    ensures v / s == k && v % s == r
  {
    var q, m := v / s, v % s;
    assert v == q * s + m;
    if q > k {
      MulMonotone(k + 1, q, s);
      assert false;
    } else if q < k {
      MulMonotone(q + 1, k, s);
      assert false;
    }
  }

  lemma MulStrict(a: nat, b: nat, s: nat)
    requires s > 0 && a * s < b * s
    ensures a < b
  {
    if b <= a { MulMonotone(b, a, s); }
  }

  /** range(0, n, s) */
  function Range(n: nat, s: nat): (r: seq<nat>)
    requires s > 0
    ensures |r| == CeilDiv(n, s)
  {
    seq(CeilDiv(n, s), i requires 0 <= i < CeilDiv(n, s) => i * s)
  }

  /** The values of range(0, n, s) are exactly the multiples of s below n. */
  lemma RangeMembers(n: nat, s: nat, v: nat)
    requires s > 0
    ensures v in Range(n, s) <==> v < n && v % s == 0
  {
    var r := Range(n, s);
    var q := CeilDiv(n, s);
    if v in r {
      var i :| 0 <= i < q && r[i] == v;
      MulMonotone(i, q - 1, s);
      DivUnique(v, i, 0, s);
    }
    if v < n && v % s == 0 {
      var i := v / s;
      DivUnique(v, i, 0, s);
      MulStrict(i, q, s);
      assert r[i] == v;
    }
  }

  lemma RangeIncreasing(n: nat, s: nat)
    requires s > 0
    ensures forall i, j :: 0 <= i < j < |Range(n, s)| ==> Range(n, s)[i] < Range(n, s)[j]
  {
    forall i, j | 0 <= i < j < |Range(n, s)| ensures Range(n, s)[i] < Range(n, s)[j] {
      MulMonotone(i + 1, j, s);
    }
  }

  /** The pairs (x, y) visited by `for y in ys: for x in xs`, in visiting order. */
  function Grid(ys: seq<nat>, xs: seq<nat>): (o: seq<(nat, nat)>)
  {
    if ys == [] then [] else Grid(ys[..|ys| - 1], xs) + Row(xs, ys[|ys| - 1])
  }

  function Row(xs: seq<nat>, y: nat): (o: seq<(nat, nat)>)
    ensures |o| == |xs| && forall j :: 0 <= j < |xs| ==> o[j] == (xs[j], y)
  {
    seq(|xs|, j requires 0 <= j < |xs| => (xs[j], y))
  }

  lemma {:induction false} GridSize(ys: seq<nat>, xs: seq<nat>)
    ensures |Grid(ys, xs)| == |ys| * |xs|
  {
    if ys != [] {
      GridSize(ys[..|ys| - 1], xs);
      assert (|ys| - 1) * |xs| + |xs| == |ys| * |xs|;
    }
  }

  lemma {:induction false} GridMembers(ys: seq<nat>, xs: seq<nat>, x: nat, y: nat)
    ensures (x, y) in Grid(ys, xs) <==> x in xs && y in ys
  {
    if ys != [] {
      var init := ys[..|ys| - 1];
      GridMembers(init, xs, x, y);
      assert ys == init + [ys[|ys| - 1]];
      if (x, y) in Row(xs, ys[|ys| - 1]) {
        var j :| 0 <= j < |xs| && Row(xs, ys[|ys| - 1])[j] == (x, y);
        assert xs[j] == x;
      }
      if x in xs && y == ys[|ys| - 1] {
        var j :| 0 <= j < |xs| && xs[j] == x;
        assert Row(xs, y)[j] == (x, y);
      }
    }
  }

  /** Earlier-visited origins are lower rows, or the same row further left. */
  predicate RowMajor(o: seq<(nat, nat)>)
  {
    forall k1, k2 :: 0 <= k1 < k2 < |o| ==>
      o[k1].1 < o[k2].1 || (o[k1].1 == o[k2].1 && o[k1].0 < o[k2].0)
  }

  predicate Increasing(s: seq<nat>)
  {
    forall i, j :: 0 <= i < j < |s| ==> s[i] < s[j]
  }

  lemma {:induction false} GridRowMajor(ys: seq<nat>, xs: seq<nat>)
    requires Increasing(ys) && Increasing(xs)
    ensures RowMajor(Grid(ys, xs))
  {
    if ys != [] {
      var init := ys[..|ys| - 1];
      var y := ys[|ys| - 1];
      GridRowMajor(init, xs);
      var a := Grid(init, xs);
      var o := Grid(ys, xs);
      assert o == a + Row(xs, y);
      forall k | 0 <= k < |a| ensures a[k].1 < y {
        GridMembers(init, xs, a[k].0, a[k].1);
        assert a[k] in a;
      }
    }
  }

  /** The tile origins of an h × w image: y over range(0, h, s) outer,
      x over range(0, w, s) inner. */
  function Origins(h: nat, w: nat, s: nat): seq<(nat, nat)>
    requires s > 0
  {
    Grid(Range(h, s), Range(w, s))
  }

  /** There are ceil(h/s) · ceil(w/s) origins. */
  lemma OriginCount(h: nat, w: nat, s: nat)
    requires s > 0
    ensures |Origins(h, w, s)| == CeilDiv(h, s) * CeilDiv(w, s)
  {
    GridSize(Range(h, s), Range(w, s));
  }

  /** The origins are exactly the pairs of multiples of s inside the image. */
  lemma OriginsAreGridMultiples(h: nat, w: nat, s: nat, x: nat, y: nat)
    requires s > 0
    ensures (x, y) in Origins(h, w, s) <==> x < w && y < h && x % s == 0 && y % s == 0
  {
    GridMembers(Range(h, s), Range(w, s), x, y);
    RangeMembers(w, s, x);
    RangeMembers(h, s, y);
  }

  /** The origins are visited row by row, left to right, each once. */
  lemma OriginsRowMajor(h: nat, w: nat, s: nat)
    requires s > 0
    ensures RowMajor(Origins(h, w, s))
  {
    RangeIncreasing(h, s);
    RangeIncreasing(w, s);
    GridRowMajor(Range(h, s), Range(w, s));
  }

  /** image[y:y+s, x:x+s] copied into an s × s zero array: in-image pixels
      keep their value, the rest of the square is black. */
  function Tile(img: Image, x: nat, y: nat, s: nat): (t: seq<seq<Pixel>>)
    requires img.Valid()
    ensures |t| == s && forall i :: 0 <= i < s ==> |t[i]| == s
  {
    seq(s, i requires 0 <= i < s =>
      seq(s, j requires 0 <= j < s =>
        if y + i < img.height && x + j < img.width then img.px[y + i][x + j] else Black))
  }

  /** A tile that lies inside the image is the plain slice, rows cut at x..x+s. */
  lemma InteriorTileIsSlice(img: Image, x: nat, y: nat, s: nat)
    requires img.Valid()
    requires y + s <= img.height && x + s <= img.width
    ensures Tile(img, x, y, s) == seq(s, i requires 0 <= i < s => img.px[y + i][x .. x + s])
  {
    var t := Tile(img, x, y, s);
    var slice := seq(s, i requires 0 <= i < s => img.px[y + i][x .. x + s]);
    forall i | 0 <= i < s ensures t[i] == slice[i] {
      assert |t[i]| == |slice[i]|;
    }
  }

  /** The pixel (r, c) sits in the tile at (c and r rounded down to
      multiples of s), at offset (r mod s, c mod s). */
  lemma PixelInItsTile(img: Image, s: nat, r: nat, c: nat)
    requires img.Valid() && s > 0
    requires r < img.height && c < img.width
    ensures var x, y := c / s * s, r / s * s;
      (x, y) in Origins(img.height, img.width, s) &&
      Tile(img, x, y, s)[r % s][c % s] == img.px[r][c]
  {
    RoundDown(c, s);
    RoundDown(r, s);
    OriginsAreGridMultiples(img.height, img.width, s, c / s * s, r / s * s);
    TilePixel(img, c / s * s, r / s * s, s, r % s, c % s);
  }

  /** v rounded down to a multiple of s is a multiple of s, at most v, and
      v mod s below it. */
  lemma RoundDown(v: nat, s: nat)
    requires s > 0
    ensures v / s * s % s == 0 && v / s * s + v % s == v
  {
    DivUnique(v / s * s, v / s, 0, s);
  }

  /** Inside the image, a tile shows the image's pixel at its offset. */
  lemma TilePixel(img: Image, x: nat, y: nat, s: nat, i: nat, j: nat)
    requires img.Valid() && i < s && j < s && y + i < img.height && x + j < img.width
    ensures Tile(img, x, y, s)[i][j] == img.px[y + i][x + j]
  {
  }

  /** No other origin's tile reaches the pixel (r, c). */
  lemma TileOfPixelUnique(h: nat, w: nat, s: nat, r: nat, c: nat, x: nat, y: nat)
    requires s > 0
    requires (x, y) in Origins(h, w, s) && x <= c < x + s && y <= r < y + s
    ensures x == c / s * s && y == r / s * s
  {
    OriginsAreGridMultiples(h, w, s, x, y);
    SameBlock(x, c, s);
    SameBlock(y, r, s);
  }

  /** The tiles partition the image: every pixel (r, c) is in the tile whose
      origin is (c rounded down to a multiple of s, r rounded down likewise),
      at offset (r mod s, c mod s), and in no other tile. */
  lemma TilesCoverImage(img: Image, s: nat, r: nat, c: nat)
    requires img.Valid() && s > 0
    requires r < img.height && c < img.width
    ensures var x, y := c / s * s, r / s * s;
      (x, y) in Origins(img.height, img.width, s) &&
      Tile(img, x, y, s)[r % s][c % s] == img.px[r][c]
    ensures forall x: nat, y: nat ::
      ((x, y) in Origins(img.height, img.width, s) && x <= c < x + s && y <= r < y + s) ==>
      x == c / s * s && y == r / s * s
  {
    PixelInItsTile(img, s, r, c);
    forall x: nat, y: nat | (x, y) in Origins(img.height, img.width, s) && x <= c < x + s && y <= r < y + s
      ensures x == c / s * s && y == r / s * s
    {
      TileOfPixelUnique(img.height, img.width, s, r, c, x, y);
    }
  }

  /** A multiple m of s with m <= v < m + s is v rounded down to a multiple of s. */
  lemma SameBlock(m: nat, v: nat, s: nat)
    requires s > 0 && m % s == 0 && m <= v < m + s
    ensures m == v / s * s
  {
    var k := m / s;
    DivUnique(m, k, 0, s);
    DivUnique(v, k, v - m, s);
  }
}
