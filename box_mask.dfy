/** bbox_to_mask: a COCO box [x, y, w, h] becomes a height x width mask
    with 1 on the half-open rectangle rows y0..y1-1, columns x0..x1-1 and 0
    elsewhere, after the four corners have been rounded and clipped to the
    image. Rounding of the float coordinates happens before this model: a
    box arrives as its four rounded corners. */
module BoxMask {
  import opened Common

  /** x0 = round(x), y0 = round(y), x1 = round(x + w), y1 = round(y + h). */
  datatype Corners = Corners(x0: int, y0: int, x1: int, y1: int)

  /** max(0, min(v, hi)). */
  function Clip(v: int, hi: nat): (c: int)
    ensures 0 <= c <= hi
    ensures 0 <= v <= hi ==> c == v
    ensures v < 0 ==> c == 0
    ensures v > hi ==> c == hi
  {
    Max(0, Min(v, hi))
  }

  /** The corners after clipping x-bounds to [0, width] and y-bounds to
      [0, height], each independently. */
  function Clipped(b: Corners, height: nat, width: nat): (k: Corners)
    ensures 0 <= k.x0 <= width && 0 <= k.x1 <= width
    ensures 0 <= k.y0 <= height && 0 <= k.y1 <= height
  {
    Corners(Clip(b.x0, width), Clip(b.y0, height), Clip(b.x1, width), Clip(b.y1, height))
  }

  /** The slice [y0:y1, x0:x1] contains pixel (r, c). */
  predicate Covers(k: Corners, r: int, c: int)
  {
    k.y0 <= r < k.y1 && k.x0 <= c < k.x1
  }

  /** A row of n pixels set on columns lo..hi-1. */
  function Span(lo: int, hi: int, n: nat): (row: seq<int>)
    ensures |row| == n
    ensures forall c :: 0 <= c < n ==> row[c] == if lo <= c < hi then 1 else 0
  {
    if n == 0 then [] else Span(lo, hi, n - 1) + [if lo <= n - 1 < hi then 1 else 0]
  }

  /** n rows, equal to a on rows lo..hi-1 and to z elsewhere. */
  function Stripe(lo: int, hi: int, n: nat, a: seq<int>, z: seq<int>): (rows: seq<seq<int>>)
    ensures |rows| == n
    ensures forall r :: 0 <= r < n ==> rows[r] == if lo <= r < hi then a else z
  {
    if n == 0 then [] else Stripe(lo, hi, n - 1, a, z) + [if lo <= n - 1 < hi then a else z]
  }

  /** A height x width mask set on the rows k.y0..k.y1-1 and columns
      k.x0..k.x1-1. */
  function RectGrid(k: Corners, height: nat, width: nat): (g: Grid<int>)
  {
    Grid(height, width, Stripe(k.y0, k.y1, height, Span(k.x0, k.x1, width), Span(0, 0, width)))
  }

  /** The mask bbox_to_mask returns, as a value. */
  function BoxGrid(b: Corners, height: nat, width: nat): (g: Grid<int>)
  {
    RectGrid(Clipped(b, height, width), height, width)
  }

  /** The value mask is height x width, binary, and set exactly on the
      clipped rectangle. */
  lemma BoxGridPixels(b: Corners, height: nat, width: nat)
    ensures BoxGrid(b, height, width).Valid()
    ensures Binary(BoxGrid(b, height, width))
    ensures forall r, c :: 0 <= r < height && 0 <= c < width ==>
      (BoxGrid(b, height, width).cells[r][c] == 1 <==> Covers(Clipped(b, height, width), r, c))
  {
  }

  /** How many of the indices 0..n-1 lie in lo..hi-1. */
  function Count(lo: int, hi: int, n: nat): nat
  {
    if n == 0 then 0 else Count(lo, hi, n - 1) + (if lo <= n - 1 < hi then 1 else 0)
  }

  lemma {:induction false} CountRange(lo: int, hi: int, n: nat)
    requires 0 <= lo
    ensures Count(lo, hi, n) == Max(0, Min(n, hi) - lo)
  {
    if n > 0 {
      CountRange(lo, hi, n - 1);
    }
  }

  lemma RowOnesSnoc(p: seq<int>, x: int)
    ensures RowOnes(p + [x]) == RowOnes(p) + (if x == 1 then 1 else 0)
  {
    assert (p + [x])[..|p|] == p;
  }

  lemma OnesSnoc(p: seq<seq<int>>, x: seq<int>)
    ensures Ones(p + [x]) == Ones(p) + RowOnes(x)
  {
    assert (p + [x])[..|p|] == p;
  }

  lemma {:induction false} SpanOnes(lo: int, hi: int, n: nat)
    ensures RowOnes(Span(lo, hi, n)) == Count(lo, hi, n)
  {
    if n > 0 {
      SpanOnes(lo, hi, n - 1);
      RowOnesSnoc(Span(lo, hi, n - 1), if lo <= n - 1 < hi then 1 else 0);
    }
  }

  /** k added m times. */
  function Times(m: nat, k: nat): nat
  {
    if m == 0 then 0 else Times(m - 1, k) + k
  }

  lemma {:induction false} TimesIsProduct(m: nat, k: nat)
    ensures Times(m, k) == m * k
  {
    if m > 0 {
      TimesIsProduct(m - 1, k);
    }
  }

  lemma {:induction false} StripeOnes(lo: int, hi: int, n: nat, a: seq<int>, z: seq<int>)
    requires RowOnes(z) == 0
    ensures Ones(Stripe(lo, hi, n, a, z)) == Times(Count(lo, hi, n), RowOnes(a))
  {
    if n > 0 {
      var m := Count(lo, hi, n - 1);
      StripeOnes(lo, hi, n - 1, a, z);
      if lo <= n - 1 < hi {
        OnesSnoc(Stripe(lo, hi, n - 1, a, z), a);
        assert Count(lo, hi, n) == m + 1;
        assert Times(m + 1, RowOnes(a)) == Times(m, RowOnes(a)) + RowOnes(a);
      } else {
        OnesSnoc(Stripe(lo, hi, n - 1, a, z), z);
        assert Count(lo, hi, n) == m;
      }
    }
  }

  /** The rectangle k of an image it fits in is max(0, k.y1 - k.y0) rows
      of max(0, k.x1 - k.x0) set pixels. */
  lemma RectRows(k: Corners, height: nat, width: nat)
    requires 0 <= k.x0 && k.x1 <= width && 0 <= k.y0 && k.y1 <= height
    ensures Ones(RectGrid(k, height, width).cells) == Times(Max(0, k.y1 - k.y0), Max(0, k.x1 - k.x0))
  {
    var row := Span(k.x0, k.x1, width);
    var blank := Span(0, 0, width);
    assert RowOnes(row) == Max(0, k.x1 - k.x0) by {
      SpanOnes(k.x0, k.x1, width);
      CountRange(k.x0, k.x1, width);
    }
    assert RowOnes(blank) == 0 by {
      SpanOnes(0, 0, width);
      CountRange(0, 0, width);
    }
    assert Count(k.y0, k.y1, height) == Max(0, k.y1 - k.y0) by {
      CountRange(k.y0, k.y1, height);
    }
    StripeOnes(k.y0, k.y1, height, row, blank);
  }

  /** ... and so max(0, k.x1 - k.x0) * max(0, k.y1 - k.y0) set pixels. */
  lemma RectOnes(k: Corners, height: nat, width: nat)
    requires 0 <= k.x0 && k.x1 <= width && 0 <= k.y0 && k.y1 <= height
    ensures Ones(RectGrid(k, height, width).cells) == Max(0, k.x1 - k.x0) * Max(0, k.y1 - k.y0)
  {
    RectRows(k, height, width);
    TimesIsProduct(Max(0, k.y1 - k.y0), Max(0, k.x1 - k.x0));
  }

  /** The number of set pixels is max(0, x1 - x0) * max(0, y1 - y0) over the
      clipped corners. */
  lemma BoxArea(b: Corners, height: nat, width: nat)
    ensures var k := Clipped(b, height, width);
      Ones(BoxGrid(b, height, width).cells) == Max(0, k.x1 - k.x0) * Max(0, k.y1 - k.y0)
  {
    RectOnes(Clipped(b, height, width), height, width);
  }

  /** A box that lies inside the image keeps its full area. */
  lemma BoxInsideArea(b: Corners, height: nat, width: nat)
    requires 0 <= b.x0 <= b.x1 <= width && 0 <= b.y0 <= b.y1 <= height
    ensures Ones(BoxGrid(b, height, width).cells) == (b.x1 - b.x0) * (b.y1 - b.y0)
  {
    BoxArea(b, height, width);
  }

  /** A box that ends up empty after clipping (entirely outside the image,
      or with x1 <= x0 or y1 <= y0) gives an all-zero mask, not an error. */
  lemma BoxDegenerate(b: Corners, height: nat, width: nat)
    requires b.x1 <= 0 || b.y1 <= 0 || b.x0 >= width || b.y0 >= height || b.x1 <= b.x0 || b.y1 <= b.y0
    ensures Ones(BoxGrid(b, height, width).cells) == 0
    ensures forall r, c :: 0 <= r < height && 0 <= c < width ==> BoxGrid(b, height, width).cells[r][c] == 0
  {
    BoxArea(b, height, width);
    var k := Clipped(b, height, width);
    assert k.x1 <= k.x0 || k.y1 <= k.y0;
  }

  /** A box at x = -5, y = 2 of size 10 x 3 on an 8 x 8 image: its left edge
      is clipped, leaving 15 pixels in rows 2-4 and columns 0-4. */
  lemma ClippedLeftEdgeExample()
    ensures Ones(BoxGrid(Corners(-5, 2, 5, 5), 8, 8).cells) == 15
    ensures forall r, c :: 0 <= r < 8 && 0 <= c < 8 ==>
      (BoxGrid(Corners(-5, 2, 5, 5), 8, 8).cells[r][c] == 1 <==> 2 <= r <= 4 && 0 <= c <= 4)
  {
    BoxArea(Corners(-5, 2, 5, 5), 8, 8);
    BoxGridPixels(Corners(-5, 2, 5, 5), 8, 8);
    assert Clipped(Corners(-5, 2, 5, 5), 8, 8) == Corners(0, 2, 5, 5);
  }

  /** bbox_to_mask: allocate a zeroed height x width mask, clip the rounded
      corners, and set the slice [y0:y1, x0:x1] to 1. */
  method BboxToMask(b: Corners, height: nat, width: nat) returns (mask: array2<int>)
    ensures fresh(mask)
    ensures mask.Length0 == height && mask.Length1 == width
    ensures forall r, c :: 0 <= r < height && 0 <= c < width ==>
      mask[r, c] == BoxGrid(b, height, width).cells[r][c]
  {
    mask := new int[height, width]((r, c) => 0);
    var x0, y0, x1, y1 := b.x0, b.y0, b.x1, b.y1;
    x0 := Max(0, Min(x0, width));
    x1 := Max(0, Min(x1, width));
    y0 := Max(0, Min(y0, height));
    y1 := Max(0, Min(y1, height));
    ghost var k := Clipped(b, height, width);
    assert k == Corners(x0, y0, x1, y1);
    var r := y0;
    while r < y1
      invariant y0 <= r <= height && (r <= y1 || r == y0)
      invariant forall i, j :: 0 <= i < height && 0 <= j < width ==>
        mask[i, j] == if y0 <= i < r && x0 <= j < x1 then 1 else 0
    {
      var c := x0;
      while c < x1
        invariant x0 <= c <= width && (c <= x1 || c == x0)
        invariant forall i, j :: 0 <= i < height && 0 <= j < width ==>
          mask[i, j] == if (y0 <= i < r && x0 <= j < x1) || (i == r && x0 <= j < c) then 1 else 0
      {
        mask[r, c] := 1;
        c := c + 1;
      }
      r := r + 1;
    }
    BoxGridPixels(b, height, width);
  }
}
