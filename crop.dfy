/** Crop-rectangle arithmetic: the corners of the region the operator cuts out of the
    detail image, in integer arcseconds, from a centre and a height and width. */
module Crop {
  import opened Basics
  import opened Numerics

  datatype Corner = Corner(tx: int, ty: int)

  /** Bottom-left and top-right corners. The same numbers serve both the AIA and the
      HMI map; only the coordinate frame they are attached to differs. */
  datatype Rect = Rect(blc: Corner, trc: Corner)

  /** The crop geometry as the session log records it: the clicked centre at full
      precision, and the height and width the operator typed. */
  datatype CropArea = CropArea(center: Coord, height: int, width: int)

  /** The corners preplot and loadlog compute: the centre truncated toward zero, then
      int(width / 2) and int(height / 2) either side of it. */
  function CropRect(area: CropArea): (r: Rect)
    ensures r.blc.tx + r.trc.tx == 2 * Trunc(area.center.tx)
    ensures r.blc.ty + r.trc.ty == 2 * Trunc(area.center.ty)
    ensures r.trc.tx - r.blc.tx == 2 * HalfTrunc(area.width)
    ensures r.trc.ty - r.blc.ty == 2 * HalfTrunc(area.height)
  {
    var cLon, cLat := Trunc(area.center.tx), Trunc(area.center.ty);
    Rect(Corner(cLon - HalfTrunc(area.width), cLat - HalfTrunc(area.height)),
         Corner(cLon + HalfTrunc(area.width), cLat + HalfTrunc(area.height)))
  }

  /** The wider rectangle plotmlines crops: twice the width and height either side of
      the truncated centre. */
  function LargeCropRect(area: CropArea): (r: Rect)
    ensures r.blc.tx + r.trc.tx == 2 * Trunc(area.center.tx)
    ensures r.blc.ty + r.trc.ty == 2 * Trunc(area.center.ty)
    ensures r.trc.tx - r.blc.tx == 4 * area.width
    ensures r.trc.ty - r.blc.ty == 4 * area.height
  {
    var cLon, cLat := Trunc(area.center.tx), Trunc(area.center.ty);
    Rect(Corner(cLon - 2 * area.width, cLat - 2 * area.height),
         Corner(cLon + 2 * area.width, cLat + 2 * area.height))
  }

  predicate Contains(outer: Rect, inner: Rect) {
    outer.blc.tx <= inner.blc.tx && outer.blc.ty <= inner.blc.ty &&
    inner.trc.tx <= outer.trc.tx && inner.trc.ty <= outer.trc.ty
  }

  /** For a non-negative height and width, the field-line view of plotmlines encloses
      the crop of preplot. */
  lemma LargeCropContainsCrop(area: CropArea)
    requires area.height >= 0 && area.width >= 0
    ensures Contains(LargeCropRect(area), CropRect(area))
  {
    HalfTruncTowardZero(area.width);
    HalfTruncTowardZero(area.height);
  }

  /** The corners are those of the truncated centre: a centre at -10.7 arcsec is taken
      as -10, not -11, and a height of 5 spans 2 either side. */
  lemma CropRectExample()
    ensures CropRect(CropArea(Coord(-10.7, 20.3), 5, 4)) == Rect(Corner(-12, 18), Corner(-8, 22))
  {
    HalfTruncTowardZero(5);
    HalfTruncTowardZero(4);
  }
}
