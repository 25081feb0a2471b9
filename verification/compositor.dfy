/**
 * The geometry of the watermark step: how the source and the watermark are
 * resized, how many watermark tiles are stacked, where each one goes, and
 * the composite-and-write loop that places them.
 */
module Compositor {
  import opened FileSystem

  /** The bound the source is resized to on one axis. */
  const Bound: nat := 320

  datatype Dims = Dims(width: nat, height: nat)

  /** Where one watermark tile is composited onto the source. */
  datatype Placement = Placement(x: int, y: int)

  /**
   * What jimp provides for one job: the decoded source and watermark sizes,
   * and the size jimp.AUTO computes for the scaled axis of each. jimp never
   * yields an empty bitmap and rounds an AUTO size of 0 up to 1.
   */
  datatype Decoded = Decoded(source: Dims, watermark: Dims, sourceAuto: nat, watermarkAuto: nat) {
    predicate Valid() {
      source.width > 0 && source.height > 0 && watermark.width > 0 && watermark.height > 0 &&
      sourceAuto > 0 && watermarkAuto > 0
    }
  }

  /** Math.round(a / b) on naturals: the nearest integer, a half rounded up. */
  function RoundDiv(a: nat, b: nat): (q: nat)
    requires b > 0
    ensures 2 * (q * b) <= 2 * a + b < 2 * (q * b) + 2 * b
  {
    (2 * a + b) / (2 * b)
  }

  /**
   * The source after its resize: a portrait source gets width 320, any other
   * (square included) height 320; the other axis is jimp.AUTO's value.
   */
  function ResizeSource(d: Decoded): (r: Dims)
    requires d.Valid()
    ensures d.source.height > d.source.width ==> r.width == Bound
    ensures d.source.height <= d.source.width ==> r.height == Bound
    ensures r.width > 0 && r.height > 0
  {
    if d.source.height > d.source.width then Dims(Bound, d.sourceAuto) else Dims(d.sourceAuto, Bound)
  }

  /** The watermark after its resize: as wide as the resized source. */
  function ResizeWatermark(d: Decoded, image: Dims): (r: Dims)
    requires d.Valid()
    ensures r.width == image.width && r.height > 0
  {
    Dims(image.width, d.watermarkAuto)
  }

  /** The tile count of one job: Math.round(image height / watermark height), both after their resize. */
  function Tiles(d: Decoded): nat
    requires d.Valid()
  {
    var image := ResizeSource(d);
    RoundDiv(image.height, ResizeWatermark(d, image).height)
  }

  /** Tile i sits at x = 0, y = H - n*h + i*h: the stack is anchored to the bottom edge. */
  function Layout(height: nat, tile: nat): (ps: seq<Placement>)
    requires tile > 0
    ensures |ps| == RoundDiv(height, tile)
  {
    var n := RoundDiv(height, tile);
    seq(n, i => Placement(0, height - n * tile + i * tile))
  }

  /**
   * The tiles of a layout: all at x = 0, each exactly one tile height below
   * the previous one, the first at H - n*h and the last ending on the bottom
   * edge.
   */
  lemma LayoutShape(height: nat, tile: nat)
    requires tile > 0
    ensures var ps := Layout(height, tile);
      (forall i :: 0 <= i < |ps| ==> ps[i].x == 0) &&
      (forall i :: 0 < i < |ps| ==> ps[i].y == ps[i - 1].y + tile) &&
      (|ps| > 0 ==> ps[0].y == height - |ps| * tile && ps[|ps| - 1].y + tile == height)
  {
    var ps := Layout(height, tile);
    var n := |ps|;
    forall i | 0 < i < n ensures ps[i].y == ps[i - 1].y + tile {
      StepUp(i, tile);
    }
    if n > 0 {
      StepUp(n, tile);
    }
  }

  lemma StepUp(i: int, tile: int)
    ensures (i - 1) * tile + tile == i * tile
  {
  }

  /**
   * Rounding the quotient puts the top of the stack within half a tile of the
   * top edge (above or below it); the stack covers the image exactly when
   * the tile height divides the image height.
   */
  lemma StackMeetsTop(height: nat, tile: nat)
    requires tile > 0
    ensures var n := RoundDiv(height, tile);
      -(tile as int) <= 2 * (height - n * tile) < tile &&
      (n * tile == height <==> height % tile == 0)
  {
    var n := RoundDiv(height, tile);
    if n * tile == height {
      MultipleHasNoRemainder(height, tile, n);
    }
    if height % tile == 0 {
      var k := height / tile;
      assert height == k * tile;
      ExactRound(k, tile);
    }
  }

  /** Math.round of a whole number of tiles is that number. */
  lemma ExactRound(k: nat, tile: nat)
    requires tile > 0
    ensures RoundDiv(k * tile, tile) == k
  {
    var n := RoundDiv(k * tile, tile);
    assert k * (2 * tile) == 2 * (k * tile) && n * (2 * tile) == 2 * (n * tile);
    UniqueQuotient(2 * (k * tile) + tile, 2 * tile, k, n);
  }

  /** A whole number of tiles leaves no remainder. */
  lemma MultipleHasNoRemainder(height: nat, tile: nat, n: nat)
    requires tile > 0 && n * tile == height
    ensures height % tile == 0
  {
    var q, r := height / tile, height % tile;
    assert q * tile + r == height && 0 <= r < tile;
    UniqueQuotient(height, tile, n, q);
  }

  /** A quotient is determined by the bounds it satisfies. */
  lemma UniqueQuotient(x: nat, y: nat, k: nat, n: nat)
    requires y > 0
    requires k * y <= x < k * y + y
    requires n * y <= x < n * y + y
    ensures k == n
  {
    assert n * y + y == (n + 1) * y && k * y + y == (k + 1) * y;
    MulCancel(k, n + 1, y);
    MulCancel(n, k + 1, y);
  }

  lemma MulCancel(a: int, b: int, y: int)
    requires y > 0 && a * y < b * y
    ensures a < b
  {
  }

  lemma MulMono(a: int, b: int, y: int)
    requires y >= 0 && a <= b
    ensures a * y <= b * y
  {
  }

  /**
   * If jimp's AUTO value is the exact proportional size, rounded, then the
   * resize puts the shorter side at 320 exactly: both sides end up at least
   * 320, and the longer side of the source stays the longer (or equal) one.
   */
  lemma ResizeKeepsShortSide(d: Decoded)
    requires d.Valid()
    requires d.source.height > d.source.width ==>
      d.sourceAuto == RoundDiv(d.source.height * Bound, d.source.width)
    requires d.source.height <= d.source.width ==>
      d.sourceAuto == RoundDiv(d.source.width * Bound, d.source.height)
    ensures var r := ResizeSource(d);
      r.width >= Bound && r.height >= Bound &&
      (d.source.height > d.source.width ==> r.height >= r.width) &&
      (d.source.height <= d.source.width ==> r.width >= r.height)
  {
    var w, h, q := d.source.width, d.source.height, d.sourceAuto;
    if h > w {
      AtLeastBound(h, w, q);
    } else {
      AtLeastBound(w, h, q);
    }
  }

  /** Scaling the longer side `long` by 320 / `short` and rounding never gives less than 320. */
  lemma AtLeastBound(long: nat, short: nat, q: nat)
    requires 0 < short <= long
    requires q == RoundDiv(long * Bound, short)
    ensures q >= Bound
  {
    MulMono(short, long, Bound);
    assert 2 * (short * Bound) + short < 2 * (q * short) + 2 * short;
    assert (2 * Bound - 1) * short < (2 * q) * short;
    MulCancel(2 * Bound - 1, 2 * q, short);
  }

  /** The write events of n loop iterations. */
  function TileWrites(newFile: string, n: nat): (ws: seq<Event>)
  {
    seq(n, _ => Wrote(newFile))
  }

  /** n writes of the same file leave the disk as one write does, and zero writes leave it alone. */
  lemma {:induction false} ApplyTileWrites(d: Disk, newFile: string, n: nat)
    ensures ApplyAll(d, TileWrites(newFile, n)) ==
      if n == 0 then d else d.(files := d.files + {newFile})
    ensures Writes(TileWrites(newFile, n)) == seq(n, _ => newFile)
  {
    if n > 0 {
      ApplyTileWrites(d, newFile, n - 1);
      assert TileWrites(newFile, n)[..n - 1] == TileWrites(newFile, n - 1);
      assert seq(n, _ => newFile) == seq(n - 1, _ => newFile) + [newFile];
    }
  }

  /**
   * The tiling loop: for each of the n tiles, composite the watermark at its
   * offset and write the image to newFile. Returns the offsets used, in order.
   */
  method TileWatermark(host: Host, image: Dims, watermark: Dims, newFile: string)
    returns (placements: seq<Placement>)
    requires watermark.height > 0
    modifies host
    ensures placements == Layout(image.height, watermark.height)
    ensures host.events == old(host.events) + TileWrites(newFile, |placements|)
    ensures host.State() == ApplyAll(old(host.State()), TileWrites(newFile, |placements|))
  {
    var n := RoundDiv(image.height, watermark.height);
    ghost var start := host.State();
    ghost var layout := Layout(image.height, watermark.height);
    placements := [];
    for i := 0 to n
      invariant placements == layout[..i]
      invariant host.events == old(host.events) + TileWrites(newFile, i)
      invariant host.State() == ApplyAll(start, TileWrites(newFile, i))
    {
      var y := image.height - n * watermark.height + watermark.height * i;
      assert layout[i] == Placement(0, y);
      assert layout[..i + 1] == layout[..i] + [layout[i]];
      placements := placements + [Placement(0, y)];
      host.WriteImage(newFile);
      assert TileWrites(newFile, i + 1) == TileWrites(newFile, i) + [Wrote(newFile)];
      ApplyAllAppend(start, TileWrites(newFile, i), [Wrote(newFile)]);
    }
  }
}
