/** rgb_to_id: the COCO panoptic colour code id = R + 256*G + 256^2*B,
    applied to every pixel of a decoded segmentation PNG. */
module PanopticCodec {
  import opened Common

  /** One more than the largest id three 8-bit channels can encode. */
  const IdLimit: int := 256 * 256 * 256

  predicate IsChannel(v: int) { 0 <= v < 256 }

  /** A pixel whose first three channels are 8-bit values. */
  predicate IsColour(p: seq<int>)
  {
    |p| >= 3 && IsChannel(p[0]) && IsChannel(p[1]) && IsChannel(p[2])
  }

  /** A decoded RGB(A) image: every pixel has at least the three colour
      channels that rgb_to_id reads. */
  predicate IsRgbImage(img: Grid<seq<int>>)
  {
    img.Valid() && forall r, c :: 0 <= r < img.height && 0 <= c < img.width ==> |img.cells[r][c]| >= 3
  }

  /** The segment id of one pixel; channels past the third are ignored. */
  function PixelId(p: seq<int>): int
    requires |p| >= 3
  {
    p[0] + 256 * p[1] + 65536 * p[2]
  }

  /** The inverse direction: the colour that encodes a segment id. */
  function IdToRgb(id: int): seq<int>
  {
    [id % 256, (id / 256) % 256, id / 65536]
  }

  lemma DivModUnique(a: int, q: int, r: int)
    requires a == 256 * q + r && 0 <= r < 256
    ensures a / 256 == q && a % 256 == r
  {
  }

  /** Decoding a colour and re-encoding the id gives back the three colour
      channels, and the id fits in 24 bits. */
  lemma {:induction false} ColourRoundTrip(p: seq<int>)
    requires IsColour(p)
    ensures 0 <= PixelId(p) < IdLimit
    ensures IdToRgb(PixelId(p)) == p[..3]
  {
    var id := PixelId(p);
    DivModUnique(id, p[1] + 256 * p[2], p[0]);
    DivModUnique(p[1] + 256 * p[2], p[2], p[1]);
    assert id / 65536 == (id / 256) / 256;
  }

  /** Every 24-bit id is the code of exactly the colour IdToRgb gives. */
  lemma {:induction false} IdRoundTrip(id: int)
    requires 0 <= id < IdLimit
    ensures IsColour(IdToRgb(id))
    ensures PixelId(IdToRgb(id)) == id
  {
    var q := id / 256;
    DivModUnique(id, q, id % 256);
    DivModUnique(q, q / 256, q % 256);
    assert id / 65536 == q / 256;
  }

  /** On 8-bit channels the colour code is injective: two pixels get the
      same segment id exactly when their colours agree. */
  lemma PixelIdInjective(p: seq<int>, q: seq<int>)
    requires IsColour(p) && IsColour(q)
    ensures PixelId(p) == PixelId(q) <==> p[..3] == q[..3]
  {
    ColourRoundTrip(p);
    ColourRoundTrip(q);
    if p[..3] == q[..3] {
      assert p[0] == q[0] && p[1] == q[1] && p[2] == q[2];
    }
  }

  /** rgb_to_id on a whole (H, W, C) image: an (H, W) id map whose entry
      (r, c) is the id of pixel (r, c). */
  function RgbToId(img: Grid<seq<int>>): (ids: Grid<int>)
    requires IsRgbImage(img)
    ensures ids.Valid() && ids.height == img.height && ids.width == img.width
    ensures forall r, c :: 0 <= r < ids.height && 0 <= c < ids.width ==>
      ids.cells[r][c] == PixelId(img.cells[r][c])
  {
    Grid(img.height, img.width,
      seq(img.height, r requires 0 <= r < img.height =>
        seq(img.width, c requires 0 <= c < img.width => PixelId(img.cells[r][c]))))
  }

  /** The image that encodes an id map, three channels per pixel. */
  function IdsToRgb(ids: Grid<int>): (img: Grid<seq<int>>)
    requires ids.Valid()
    ensures IsRgbImage(img) && img.height == ids.height && img.width == ids.width
    ensures forall r, c :: 0 <= r < img.height && 0 <= c < img.width ==>
      img.cells[r][c] == IdToRgb(ids.cells[r][c])
  {
    Grid(ids.height, ids.width,
      seq(ids.height, r requires 0 <= r < ids.height =>
        seq(ids.width, c requires 0 <= c < ids.width => IdToRgb(ids.cells[r][c]))))
  }

  /** Decoding the image that encodes an id map of 24-bit ids gives the id
      map back. */
  lemma DecodeEncodeImage(ids: Grid<int>)
    requires ids.Valid()
    requires forall r, c :: 0 <= r < ids.height && 0 <= c < ids.width ==> 0 <= ids.cells[r][c] < IdLimit
    ensures RgbToId(IdsToRgb(ids)) == ids
  {
    var back := RgbToId(IdsToRgb(ids));
    forall r | 0 <= r < ids.height
      ensures back.cells[r] == ids.cells[r]
    {
      forall c | 0 <= c < ids.width
        ensures back.cells[r][c] == ids.cells[r][c]
      {
        IdRoundTrip(ids.cells[r][c]);
      }
    }
  }

  /** Encoding the id map of an image with exactly three 8-bit channels per
      pixel gives the image back: no two colours share an id map. */
  lemma EncodeDecodeImage(img: Grid<seq<int>>)
    requires img.Valid()
    requires forall r, c :: 0 <= r < img.height && 0 <= c < img.width ==>
      |img.cells[r][c]| == 3 && IsColour(img.cells[r][c])
    ensures IdsToRgb(RgbToId(img)) == img
  {
    var back := IdsToRgb(RgbToId(img));
    forall r | 0 <= r < img.height
      ensures back.cells[r] == img.cells[r]
    {
      forall c | 0 <= c < img.width
        ensures back.cells[r][c] == img.cells[r][c]
      {
        ColourRoundTrip(img.cells[r][c]);
        assert img.cells[r][c][..3] == img.cells[r][c];
      }
    }
  }
}
