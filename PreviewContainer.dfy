/**
 * `PreviewContainer`: the box the comparison preview is drawn in. The image
 * is scaled down to a base height of at most 300px, keeping its aspect
 * ratio, and the base size is then multiplied by the zoom.
 */
module PreviewContainer {
  import opened Common

  datatype Size = Size(width: real, height: real)

  /** The tallest the preview is at zoom 1. */
  const MaxBaseHeight: real := 300.0

  /** `Math.min(300, dimensions.height)`. */
  function BaseHeight(d: Size): (h: real)
    ensures h <= MaxBaseHeight && h <= d.height
    ensures d.height <= MaxBaseHeight ==> h == d.height
  {
    Min(MaxBaseHeight, d.height)
  }

  /**
   * The size at zoom 1: the height is `BaseHeight` and the width is scaled
   * by `baseHeight / dimensions.height`, a division that needs a non-zero
   * image height.
   */
  function BaseSize(d: Size): (r: Size)
    requires d.height != 0.0
    ensures r.height == BaseHeight(d)
    ensures r.width * d.height == d.width * r.height
    ensures d.height <= MaxBaseHeight ==> r == d
    ensures 0.0 < d.height && 0.0 <= d.width ==> 0.0 <= r.width <= d.width
  {
    var baseHeight := BaseHeight(d);
    var scale := baseHeight / d.height;
    var baseWidth := d.width * scale;
    ScaledWidth(d.width, d.height, baseHeight);
    Size(baseWidth, baseHeight)
  }

  /** The algebra of the width: scaling by `h / height` keeps the aspect ratio. */
  lemma ScaledWidth(width: real, height: real, h: real)
    requires height != 0.0
    ensures width * (h / height) * height == width * h
    ensures h == height ==> width * (h / height) == width
    ensures 0.0 < height && 0.0 <= width && 0.0 <= h <= height ==> 0.0 <= width * (h / height) <= width
  {
    assert (h / height) * height == h;
    if 0.0 < height && 0.0 <= h <= height {
      assert h / height <= 1.0;
    }
  }

  /** The container's `width` and `height` style: the base size times the zoom. */
  function RenderedSize(d: Size, zoom: real): (r: Size)
    requires d.height != 0.0
    ensures 0.0 <= zoom ==> r.height <= MaxBaseHeight * zoom
    ensures 0.0 <= zoom ==> r.height <= d.height * zoom
    ensures r.width * d.height == d.width * r.height
    ensures zoom == 1.0 ==> r == BaseSize(d)
  {
    var base := BaseSize(d);
    var h := base.height;
    assert h <= MaxBaseHeight && h <= d.height;
    BoundScales(h, MaxBaseHeight, zoom);
    BoundScales(h, d.height, zoom);
    assert base.width * zoom * d.height == (base.width * d.height) * zoom;
    Size(base.width * zoom, h * zoom)
  }

  lemma BoundScales(a: real, b: real, zoom: real)
    requires a <= b
    ensures 0.0 <= zoom ==> a * zoom <= b * zoom
  {
    if 0.0 <= zoom {
      assert b * zoom - a * zoom == (b - a) * zoom;
    }
  }

  /** The rendered size is linear in the zoom: zooming by a sum adds the rendered sizes. */
  lemma RenderedLinear(d: Size, z1: real, z2: real)
    requires d.height != 0.0
    ensures RenderedSize(d, z1 + z2).width == RenderedSize(d, z1).width + RenderedSize(d, z2).width
    ensures RenderedSize(d, z1 + z2).height == RenderedSize(d, z1).height + RenderedSize(d, z2).height
  {
    var b := BaseSize(d);
    assert b.width * (z1 + z2) == b.width * z1 + b.width * z2;
    assert b.height * (z1 + z2) == b.height * z1 + b.height * z2;
  }
}
