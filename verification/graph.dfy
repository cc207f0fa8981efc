/** Geometry of the commit-graph column: for each log row, the line
    segments drawn in the row's image and the filled circle marking the
    commit, plus the width shared by all row images.

    With the viewer's constants every coordinate is an exact integer:
    half a row is `ROW_HEIGHT / 2 == 10` and half a lane is
    `COL_SPACING / 2 == 10`, so `COL_SPACING * (col + 0.5)` is
    `COL_SPACING * col + COL_SPACING / 2`. */
module Graph {
  import opened Results
  import opened Commits

  const ROW_HEIGHT: int := 20
  const RADIUS: int := 4
  const COL_SPACING: int := 20
  /** Extra room the graph column of the tree gets beyond the image width. */
  const MARGIN: int := 50

  /** The node colours, in palette order. */
  datatype Color = Red | Green | Blue | Black | Orange | DarkGreen | DarkBlue | Cyan | Magenta

  const PALETTE: seq<Color> := [Red, Green, Blue, Black, Orange, DarkGreen, DarkBlue, Cyan, Magenta]

  /** Shape of a graph segment: `|`, `/` or `\`. */
  datatype Stroke = Vertical | Slash | Backslash

  /** Which half of the row a segment is drawn in. */
  datatype Half = Upper | Lower

  datatype Point = Point(x: int, y: int)

  /** A path segment: `moveTo(start)` followed by `lineTo(finish)`. */
  datatype Segment = Segment(start: Point, finish: Point)

  /** The filled circle drawn for the commit itself. */
  datatype Node = Node(center: Point, radius: int, color: Color)

  /** What one row's image shows: a white `width` x `height` canvas, the
      black segments, then the node on top. */
  datatype RowImage = RowImage(width: int, height: int, segments: seq<Segment>, node: Node)

  /** x of the centre line of lane `col`. */
  function LaneX(col: int): int {
    RADIUS + COL_SPACING * col
  }

  /** x halfway between lanes `col` and `col + 1`. */
  function MidLaneX(col: int): int {
    RADIUS + COL_SPACING * col + COL_SPACING / 2
  }

  /** y of the edge a half-row's segments run to. */
  function EdgeY(half: Half): int {
    if half == Upper then 0 else ROW_HEIGHT
  }

  /** The segment drawn for `stroke` at lane `col` in `half` of a row. Every
      segment starts on the row's mid-height line and ends on the half's
      edge; the coordinates are the exact ones the viewer computes. */
  function StrokeSegment(stroke: Stroke, half: Half, col: int): (s: Segment)
    ensures s.start.y == 10
    ensures s.finish.y == (if half == Upper then 0 else 20)
    ensures stroke == Vertical ==> s.start.x == 4 + 20 * col && s.finish.x == 4 + 20 * col
    ensures stroke != Vertical ==> s.finish.x == 4 + 20 * col + 10
    ensures stroke == Slash && half == Upper ==> s.start.x == 4 + 20 * col
    ensures stroke == Slash && half == Lower ==> s.start.x == 4 + 20 * (col + 1)
    ensures stroke == Backslash && half == Upper ==> s.start.x == 4 + 20 * (col + 1)
    ensures stroke == Backslash && half == Lower ==> s.start.x == 4 + 20 * col
  {
    var mid := ROW_HEIGHT / 2;
    match (stroke, half)
    case (Vertical, _) => Segment(Point(LaneX(col), mid), Point(LaneX(col), EdgeY(half)))
    case (Slash, Upper) => Segment(Point(LaneX(col), mid), Point(MidLaneX(col), EdgeY(half)))
    case (Slash, Lower) => Segment(Point(LaneX(col + 1), mid), Point(MidLaneX(col), EdgeY(half)))
    case (Backslash, Upper) => Segment(Point(LaneX(col + 1), mid), Point(MidLaneX(col), EdgeY(half)))
    case (Backslash, Lower) => Segment(Point(LaneX(col), mid), Point(MidLaneX(col), EdgeY(half)))
  }

  /** The lanes listed for `stroke` in `half` of commit `c`'s graph row. */
  function Lanes(c: Commit, half: Half, stroke: Stroke): seq<int> {
    var h := if half == Upper then c.above else c.below;
    match stroke
    case Vertical => h.vertical
    case Slash => h.slash
    case Backslash => h.backslash
  }

  /** The segments for every lane in `cols`, in order. */
  function Strokes(stroke: Stroke, half: Half, cols: seq<int>): (r: seq<Segment>)
    ensures |r| == |cols|
    ensures forall k :: 0 <= k < |cols| ==> r[k] == StrokeSegment(stroke, half, cols[k])
  {
    seq(|cols|, k requires 0 <= k < |cols| => StrokeSegment(stroke, half, cols[k]))
  }

  /** The path of commit `c`'s row image, in the order the viewer adds the
      segments: `|` above and below, `/` above and below, `\` above and below. */
  function GraphSegments(c: Commit): seq<Segment> {
    Strokes(Vertical, Upper, c.above.vertical) + Strokes(Vertical, Lower, c.below.vertical)
    + Strokes(Slash, Upper, c.above.slash) + Strokes(Slash, Lower, c.below.slash)
    + Strokes(Backslash, Upper, c.above.backslash) + Strokes(Backslash, Lower, c.below.backslash)
  }

  /** Python's `COLORS[col]`: negative indices count from the end of the
      palette, anything else outside it is an IndexError (`None`). */
  function ColorAt(col: int): Option<Color> {
    if 0 <= col < |PALETTE| then Some(PALETTE[col])
    else if -|PALETTE| <= col < 0 then Some(PALETTE[|PALETTE| + col])
    else None
  }

  /** The image of commit `c`'s row on a canvas `width` wide; `None` when
      the palette lookup for the commit's lane fails. */
  function GraphImage(c: Commit, width: int): (r: Option<RowImage>)
    ensures r.Some? <==> -9 <= c.column < 9
    ensures r.Some? ==> r.value.width == width && r.value.height == ROW_HEIGHT
    ensures r.Some? ==> r.value.segments == GraphSegments(c)
    ensures r.Some? ==> r.value.node.center == Point(4 + 20 * c.column, 10) && r.value.node.radius == 4
    ensures r.Some? && c.column >= 0 ==> r.value.node.color == PALETTE[c.column]
    ensures r.Some? && c.column < 0 ==> r.value.node.color == PALETTE[9 + c.column]
  {
    match ColorAt(c.column)
    case None => None
    case Some(color) =>
      var node := Node(Point(LaneX(c.column), ROW_HEIGHT / 2), RADIUS, color);
      Some(RowImage(width, ROW_HEIGHT, GraphSegments(c), node))
  }

  /** Largest lane any commit of a non-empty log is drawn in. */
  function MaxColumn(log: seq<Commit>): (m: int)
    requires |log| > 0
    ensures forall i :: 0 <= i < |log| ==> log[i].column <= m
    ensures exists i :: 0 <= i < |log| && log[i].column == m
  {
    if |log| == 1 then log[0].column
    else
      var rest := MaxColumn(log[1..]);
      assert forall i :: 1 <= i < |log| ==> log[i] == log[1..][i - 1];
      if log[0].column >= rest then log[0].column else rest
  }

  /** Width of every row image: wide enough for the node in the largest
      lane and no wider. An empty log has no `max` (ValueError). */
  function PanelWidth(log: seq<Commit>): (r: Result<int, ViewError>)
    ensures r.Err? <==> |log| == 0
    ensures r.Err? ==> r.error == EmptyLog
    ensures r.Ok? ==> forall i :: 0 <= i < |log| ==> LaneX(log[i].column) + RADIUS <= r.value
    ensures r.Ok? ==> exists i :: 0 <= i < |log| && LaneX(log[i].column) + RADIUS == r.value
  {
    if |log| == 0 then Err(EmptyLog)
    else Ok(COL_SPACING * MaxColumn(log) + 2 * RADIUS)
  }

  /** The upper end of a segment drawn in `half` of a row. */
  function TopEnd(s: Segment, half: Half): Point {
    if half == Upper then s.finish else s.start
  }

  /** The lower end of a segment drawn in `half` of a row. */
  function BottomEnd(s: Segment, half: Half): Point {
    if half == Upper then s.start else s.finish
  }

  /** Each segment spans exactly half a row vertically and draws the glyph
      it stands for: `|` straight down, `/` leaning right at the top, `\`
      leaning left at the top, each by half a lane. */
  lemma SegmentDrawsGlyph(stroke: Stroke, half: Half, col: int)
    ensures var s := StrokeSegment(stroke, half, col);
      && BottomEnd(s, half).y - TopEnd(s, half).y == ROW_HEIGHT / 2
      && (stroke == Vertical ==> TopEnd(s, half).x == BottomEnd(s, half).x)
      && (stroke == Slash ==> TopEnd(s, half).x == BottomEnd(s, half).x + COL_SPACING / 2)
      && (stroke == Backslash ==> TopEnd(s, half).x == BottomEnd(s, half).x - COL_SPACING / 2)
  {
  }

  /** Rows join up: the point where a lower-half segment meets the bottom
      edge of its row is, one row height further down, exactly where the
      upper-half segment of the same shape and lane meets the top edge of
      the next row. */
  lemma RowsJoin(stroke: Stroke, col: int)
    ensures StrokeSegment(stroke, Lower, col).finish
         == Point(StrokeSegment(stroke, Upper, col).finish.x,
                  StrokeSegment(stroke, Upper, col).finish.y + ROW_HEIGHT)
  {
  }

  /** Every way into the commit's own lane starts at the node's centre: the
      `|` segments of its lane, the `/` above and `\` below that leave its
      lane, and the `/` below and `\` above in the lane to its left, which
      start one lane over. */
  lemma SegmentsMeetNode(c: Commit, width: int, half: Half)
    requires GraphImage(c, width).Some?
    ensures var center := GraphImage(c, width).value.node.center;
      && StrokeSegment(Vertical, half, c.column).start == center
      && StrokeSegment(Slash, Upper, c.column).start == center
      && StrokeSegment(Backslash, Lower, c.column).start == center
      && StrokeSegment(Slash, Lower, c.column - 1).start == center
      && StrokeSegment(Backslash, Upper, c.column - 1).start == center
  {
  }

  /** The node of every commit fits in its row image: it stays clear of the
      right edge (and of the left edge for lanes from 0 on) and of the top
      and bottom edges. */
  lemma NodeInsideImage(log: seq<Commit>, i: int)
    requires 0 <= i < |log| && -9 <= log[i].column < 9
    ensures PanelWidth(log).Ok?
    ensures var img := GraphImage(log[i], PanelWidth(log).value).value;
      && img.node.center.x + img.node.radius <= img.width
      && (log[i].column >= 0 ==> img.node.center.x - img.node.radius >= 0)
      && 0 <= img.node.center.y - img.node.radius
      && img.node.center.y + img.node.radius <= img.height
  {
  }

  /** The nine lanes from 0 get nine different colours; a negative lane
      shares the colour of the lane nine to its right. */
  lemma LaneColors(a: int, b: int)
    requires 0 <= a < 9 && 0 <= b < 9
    ensures ColorAt(a).Some? && ColorAt(b).Some?
    ensures ColorAt(a) == ColorAt(b) <==> a == b
    ensures ColorAt(a - 9) == ColorAt(a)
  {
  }

  /** A segment is in a row's path exactly when it is drawn for some lane
      listed in the commit's graph row, and the path has one segment per
      listed lane. */
  lemma GraphSegmentsComplete(c: Commit, s: Segment)
    ensures s in GraphSegments(c) <==>
      exists stroke, half, col :: col in Lanes(c, half, stroke) && s == StrokeSegment(stroke, half, col)
    ensures |GraphSegments(c)| ==
      |c.above.vertical| + |c.below.vertical| + |c.above.slash|
      + |c.below.slash| + |c.above.backslash| + |c.below.backslash|
  {
  }
}
