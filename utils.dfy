/**
 * The geometry kit shared by the chart: the margins around the plotting area, the inner width
 * and height they leave, and the rhombus marker drawn for every scattered point.
 */
module Utils {
  /** The space around the plotting area, in pixels. */
  datatype Margin = Margin(top: int, right: int, bottom: int, left: int)

  const margin: Margin := Margin(20, 30, 60, 60)

  /** The outer size of the chart before the margins are taken off. */
  const OuterWidth: int := 1000
  const OuterHeight: int := 400

  /** The inner width of the plotting area: the outer width less the left and right margins. */
  const width: int := OuterWidth - margin.left - margin.right

  /** The inner height of the plotting area: the outer height less the top and bottom margins. */
  const height: int := OuterHeight - margin.top - margin.bottom

  /** The inner area is 910 by 320 pixels, and the margins add back up to the outer size. */
  lemma LayoutConstants()
    ensures width == 910 && height == 320
    ensures width + margin.left + margin.right == OuterWidth
    ensures height + margin.top + margin.bottom == OuterHeight
    ensures width > 0 && height > 0
  {
  }

  /** A point of an SVG path, in pixels. */
  datatype Vertex = Vertex(x: real, y: real)

  /**
   * The corners of the marker path `M top L right L bottom L left Z`, in drawing order, for a
   * rhombus centred on `(x, y)`; the third argument is its height and the fourth its width.
   */
  function RhombusPath(x: real, y: real, height: real, width: real): (p: seq<Vertex>)
    ensures |p| == 4
  {
    [Vertex(x, y - height / 2.0), Vertex(x + width / 2.0, y),
     Vertex(x, y + height / 2.0), Vertex(x - width / 2.0, y)]
  }

  /**
   * The top and bottom corners lie `height` apart on the vertical through the centre, the left
   * and right corners `width` apart on the horizontal through it, each pair mirrored about the
   * centre.
   */
  lemma RhombusExtent(x: real, y: real, h: real, w: real)
    ensures var p := RhombusPath(x, y, h, w);
      && p[2].y - p[0].y == h && p[1].x - p[3].x == w
      && p[0].x == p[2].x == x && p[1].y == p[3].y == y
      && (p[0].y + p[2].y) / 2.0 == y && (p[1].x + p[3].x) / 2.0 == x
  {
  }

  /**
   * For a marker of positive size the corners come in the order top, right, bottom, left (SVG's
   * y axis points down), and the path never leaves the box `height` by `width` around the centre.
   */
  lemma RhombusOrder(x: real, y: real, h: real, w: real)
    requires h > 0.0 && w > 0.0
    ensures var p := RhombusPath(x, y, h, w);
      && p[0].y < y < p[2].y && p[3].x < x < p[1].x
      && forall v :: v in p ==> x - w / 2.0 <= v.x <= x + w / 2.0 && y - h / 2.0 <= v.y <= y + h / 2.0
  {
  }

  /** The markers of the scatter plot are 10 by 10 pixels, whose corners are 5 pixels from the centre. */
  lemma MarkerCorners(x: real, y: real)
    ensures RhombusPath(x, y, 10.0, 10.0) ==
      [Vertex(x, y - 5.0), Vertex(x + 5.0, y), Vertex(x, y + 5.0), Vertex(x - 5.0, y)]
  {
  }
}
