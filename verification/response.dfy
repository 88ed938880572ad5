/** The graph payload shared by the server and the viewer, and the four
    accessors the viewer uses to size its axes. */
module Response {
  import opened Wrappers

  newtype u8 = x: int | 0 <= x < 256

  /** An RGB colour, as the `(u8, u8, u8)` tuple the source stores */
  type Color = (u8, u8, u8)

  /** A calendar date, counted in days since 1970-01-01. */
  type Date = int

  /** `NaiveDate::default()` is 1970-01-01, day 0 of the count. */
  const DefaultDate: Date := 0

  /** The finite `f32` values, ordered as reals. NaN and the infinities are
      not part of the model, nor is the rounding grid of the format. */
  newtype F32 = r: real | -340282346638528859811704183484516925440.0 <= r <= 340282346638528859811704183484516925440.0

  /** `f32::MAX`, the largest finite value */
  const F32Max: F32 := 340282346638528859811704183484516925440.0

  /** `f32::MIN`, the most negative finite value (not the smallest positive one) */
  const F32Min: F32 := -340282346638528859811704183484516925440.0

  /** One `(NaiveDate, f32)` sample of a series */
  datatype Point = Point(date: Date, value: F32)

  type Points = seq<Point>

  /** A dataset as the server holds it */
  datatype Graph = Graph(name: string, description: string, color: Color, points: Points)

  /** A dataset as the viewer receives it */
  datatype GraphData = GraphData(name: string, color: Color, points: Points)

  /** `f32::max` on non-NaN operands */
  function Max(a: F32, b: F32): (r: F32)
    ensures a <= r && b <= r
    ensures r == a || r == b
  {
    if a < b then b else a
  }

  /** `f32::min` on non-NaN operands */
  function Min(a: F32, b: F32): (r: F32)
    ensures r <= a && r <= b
    ensures r == a || r == b
  {
    if b < a then b else a
  }

  /** The left fold `fold(acc, |a, b| a.max(b))` over the values of `ps` */
  function FoldMax(acc: F32, ps: Points): (r: F32)
    ensures acc <= r
    ensures forall i :: 0 <= i < |ps| ==> ps[i].value <= r
    ensures r == acc || exists i :: 0 <= i < |ps| && r == ps[i].value
    decreases |ps|
  {
    if |ps| == 0 then acc
    else
      var r := FoldMax(Max(acc, ps[0].value), ps[1..]);
      assert r != acc && r != Max(acc, ps[0].value) ==> exists i :: 0 <= i < |ps[1..]| && r == ps[1..][i].value;
      r
  }

  /** The left fold `fold(acc, |a, b| a.min(b))` over the values of `ps` */
  function FoldMin(acc: F32, ps: Points): (r: F32)
    ensures r <= acc
    ensures forall i :: 0 <= i < |ps| ==> r <= ps[i].value
    ensures r == acc || exists i :: 0 <= i < |ps| && r == ps[i].value
    decreases |ps|
  {
    if |ps| == 0 then acc
    else
      var r := FoldMin(Min(acc, ps[0].value), ps[1..]);
      assert r != acc && r != Min(acc, ps[0].value) ==> exists i :: 0 <= i < |ps[1..]| && r == ps[1..][i].value;
      r
  }

  /** The date of the LAST point, or the default date when there is none.
      This is the latest date only when the series is in date order
      (see `SortedBounds`). */
  function MaxX(g: GraphData): (d: Date)
    ensures |g.points| == 0 ==> d == DefaultDate
    ensures |g.points| > 0 ==> d == g.points[|g.points| - 1].date
  {
    match Last(g.points)
    case Some(p) => p.date
    case None => DefaultDate
  }

  /** The date of the FIRST point, or the default date when there is none. */
  function MinX(g: GraphData): (d: Date)
    ensures |g.points| == 0 ==> d == DefaultDate
    ensures |g.points| > 0 ==> d == g.points[0].date
  {
    match First(g.points)
    case Some(p) => p.date
    case None => DefaultDate
  }

  /** The largest value of the series, or `f32::MIN` for an empty series. */
  function MaxY(g: GraphData): (y: F32)
    ensures forall i :: 0 <= i < |g.points| ==> g.points[i].value <= y
    ensures |g.points| == 0 ==> y == F32Min
    ensures |g.points| > 0 ==> exists i :: 0 <= i < |g.points| && y == g.points[i].value
  {
    var y := FoldMax(F32Min, g.points);
    assert |g.points| > 0 && y == F32Min ==> y == g.points[0].value;
    y
  }

  /** The smallest value of the series, or `f32::MAX` for an empty series. */
  function MinY(g: GraphData): (y: F32)
    ensures forall i :: 0 <= i < |g.points| ==> y <= g.points[i].value
    ensures |g.points| == 0 ==> y == F32Max
    ensures |g.points| > 0 ==> exists i :: 0 <= i < |g.points| && y == g.points[i].value
  {
    var y := FoldMin(F32Max, g.points);
    assert |g.points| > 0 && y == F32Max ==> y == g.points[0].value;
    y
  }

  /** Each point is no later than the next: a left-to-right time series. */
  predicate SortedByDate(ps: Points) {
    forall i :: 0 <= i < |ps| - 1 ==> ps[i].date <= ps[i + 1].date
  }

  /** `d` is the date of some point and no point is later. */
  ghost predicate IsLatest(d: Date, ps: Points) {
    (exists i :: 0 <= i < |ps| && ps[i].date == d) &&
    forall i :: 0 <= i < |ps| ==> ps[i].date <= d
  }

  /** `d` is the date of some point and no point is earlier. */
  ghost predicate IsEarliest(d: Date, ps: Points) {
    (exists i :: 0 <= i < |ps| && ps[i].date == d) &&
    forall i :: 0 <= i < |ps| ==> d <= ps[i].date
  }

  /** In a series ordered point to point, every earlier index carries an
      earlier-or-equal date. */
  lemma {:induction false} SortedTransitive(ps: Points, i: int, j: int)
    requires SortedByDate(ps)
    requires 0 <= i <= j < |ps|
    ensures ps[i].date <= ps[j].date
    decreases j - i
  {
    if i < j {
      SortedTransitive(ps, i + 1, j);
    }
  }

  /** When the series is in date order, every point lies between `MinX`
      and `MaxX`. */
  lemma SortedBounds(g: GraphData)
    requires SortedByDate(g.points)
    ensures forall i :: 0 <= i < |g.points| ==> MinX(g) <= g.points[i].date <= MaxX(g)
  {
    forall i | 0 <= i < |g.points|
      ensures MinX(g) <= g.points[i].date <= MaxX(g)
    {
      SortedTransitive(g.points, 0, i);
      SortedTransitive(g.points, i, |g.points| - 1);
    }
  }

  /** When the series is in date order and not empty, `MinX` and `MaxX` are
      the true earliest and latest dates, as the fold they replaced computed. */
  lemma SortedExtrema(g: GraphData)
    requires SortedByDate(g.points)
    requires |g.points| > 0
    ensures IsEarliest(MinX(g), g.points)
    ensures IsLatest(MaxX(g), g.points)
  {
    SortedBounds(g);
  }

  /** Out of date order, `MaxX` need not be the latest date nor `MinX` the
      earliest: they are positional. */
  lemma UnsortedExtremaArePositional()
    ensures var g := GraphData("", (0, 0, 0), [Point(5, 0.0), Point(1, 0.0)]);
      MaxX(g) == 1 && !IsLatest(MaxX(g), g.points) &&
      MinX(g) == 5 && !IsEarliest(MinX(g), g.points)
  {
    var g := GraphData("", (0, 0, 0), [Point(5, 0.0), Point(1, 0.0)]);
    assert g.points[0].date > MaxX(g);
    assert g.points[1].date < MinX(g);
  }

  /** A non-empty series has a well-ordered value range; an empty one has
      the inverted range `f32::MAX .. f32::MIN`. */
  lemma YRange(g: GraphData)
    ensures |g.points| > 0 ==> MinY(g) <= MaxY(g)
    ensures |g.points| == 0 ==> MaxY(g) < MinY(g)
  {
    if |g.points| > 0 {
      assert MinY(g) <= g.points[0].value <= MaxY(g);
    }
  }
}
