/**
 * Closing of boundary-touching elevation contours.
 *
 * A contour that leaves and re-enters an axis-aligned bounding box is an open
 * polyline whose two ends lie on the box boundary. The closer turns it into a
 * closed loop by walking the box edges in the fixed cyclic order N, W, S, E and
 * appending box corners until it reaches the edge of the first point.
 *
 * Coordinates are modelled as mathematical reals.
 */
module ContourUtils {

  /** A point of a contour, in (lat, lon) order. */
  datatype Pt = Pt(lat: real, lon: real)

  /** A raw coordinate tuple `(x, y, ...)` as it comes out of the GIS reader. */
  type Coord = seq<real>

  /** The exceptions the code raises, as values. */
  datatype Error =
    | EmptyPoints            // `points[0]` on an empty list (IndexError)
    | ShortCoordinate        // `pt[1]` on a coordinate tuple with fewer than two entries (IndexError)
    | NotOnBoundary(pt: Pt)  // `get_point_edge` found no edge within tolerance (ValueError)
    | ZeroDivision           // `sign /= abs(sign)` with `sign == 0` (ZeroDivisionError)
    | EmptyGeometry          // `coordinates[0]` on a geometry without lines (IndexError)

  datatype Result<T> = Success(value: T) | Failure(error: Error)

  /** The four edges of the bounding box. */
  datatype Edge = N | W | S | E

  /** The traversal order of the edges; the successor of the last one is the first. */
  const EdgeOrder: seq<Edge> := [N, W, S, E]

  /** Position of an edge in `EdgeOrder`. */
  function EdgeIdx(e: Edge): (i: nat)
    ensures i < |EdgeOrder| && EdgeOrder[i] == e
  {
    match e
    case N => 0
    case W => 1
    case S => 2
    case E => 3
  }

  /** The winding sign of each edge: the first two edges of the order wind negatively, the last two positively. */
  function EdgeWindingDir(e: Edge): (r: int)
    ensures r == 1 || r == -1
    ensures r == 1 <==> EdgeIdx(e) >= 2
  {
    match e
    case N => -1
    case W => -1
    case S => 1
    case E => 1
  }

  /** The next edge in traversal order, wrapping around. */
  function GetNextEdge(e: Edge): (r: Edge)
    ensures r == EdgeOrder[(EdgeIdx(e) + 1) % 4]
    ensures r != e
  {
    match e
    case N => W
    case W => S
    case S => E
    case E => N
  }

  /** `GetNextEdge` applied `k` times. */
  function NextEdgeN(e: Edge, k: nat): Edge
  {
    if k == 0 then e else GetNextEdge(NextEdgeN(e, k - 1))
  }

  /** Number of forward steps from edge `from` to edge `to`. */
  function EdgeDistance(from: Edge, to: Edge): nat
  {
    if EdgeIdx(from) <= EdgeIdx(to) then EdgeIdx(to) - EdgeIdx(from)
    else EdgeIdx(to) + 4 - EdgeIdx(from)
  }

  /** The successor relation is the cycle N -> W -> S -> E -> N. */
  lemma NextEdgeCycle()
    ensures GetNextEdge(N) == W && GetNextEdge(W) == S
    ensures GetNextEdge(S) == E && GetNextEdge(E) == N
  {
  }

  /** The edge before `e` in traversal order. */
  function PrevEdge(e: Edge): Edge
  {
    match e
    case N => E
    case W => N
    case S => W
    case E => S
  }

  /** `GetNextEdge` is a bijection on the four edges: `PrevEdge` inverts it on both sides. */
  lemma NextEdgeBijective(e: Edge)
    ensures GetNextEdge(PrevEdge(e)) == e
    ensures PrevEdge(GetNextEdge(e)) == e
  {
    match e
    case N =>
    case W =>
    case S =>
    case E =>
  }

  /** Taking one step first and `k` steps afterwards is taking `k + 1` steps. */
  lemma {:induction false} NextEdgeShift(e: Edge, k: nat)
    ensures NextEdgeN(GetNextEdge(e), k) == NextEdgeN(e, k + 1)
  {
    if k > 0 {
      NextEdgeShift(e, k - 1);
    }
  }

  /** The first four steps from `e`, spelled out. */
  lemma NextEdgeSteps(e: Edge)
    ensures NextEdgeN(e, 1) == GetNextEdge(e)
    ensures NextEdgeN(e, 2) == GetNextEdge(GetNextEdge(e))
    ensures NextEdgeN(e, 3) == GetNextEdge(GetNextEdge(GetNextEdge(e)))
    ensures NextEdgeN(e, 4) == GetNextEdge(GetNextEdge(GetNextEdge(GetNextEdge(e))))
  {
    assert NextEdgeN(e, 0) == e;
    assert NextEdgeN(e, 1) == GetNextEdge(NextEdgeN(e, 0));
    assert NextEdgeN(e, 2) == GetNextEdge(NextEdgeN(e, 1));
    assert NextEdgeN(e, 3) == GetNextEdge(NextEdgeN(e, 2));
    assert NextEdgeN(e, 4) == GetNextEdge(NextEdgeN(e, 3));
  }

  /** Four steps return to the start, and no fewer do. */
  lemma FourStepsIdentity(e: Edge)
    ensures NextEdgeN(e, 4) == e
    ensures forall k: nat :: 0 < k < 4 ==> NextEdgeN(e, k) != e
  {
    NextEdgeSteps(e);
    match e
    case N =>
    case W =>
    case S =>
    case E =>
  }

  /** Walking forward from `from`, edge `to` is first met after `EdgeDistance(from, to)` steps. */
  lemma DistanceReaches(from: Edge, to: Edge)
    ensures EdgeDistance(from, to) < 4
    ensures NextEdgeN(from, EdgeDistance(from, to)) == to
    ensures forall k: nat :: k < EdgeDistance(from, to) ==> NextEdgeN(from, k) != to
  {
    NextEdgeSteps(from);
    assert NextEdgeN(from, 0) == from;
    NextEdgeCycle();
    var d := EdgeDistance(from, to);
    assert d == 0 || d == 1 || d == 2 || d == 3;
    forall k: nat | k < d ensures NextEdgeN(from, k) != to {
      assert k == 0 || k == 1 || k == 2;
    }
  }

  /** One step of the corner walk from `from` towards `to`, while `to` is not yet reached. */
  lemma WalkStep(from: Edge, to: Edge, cur: Edge)
    requires EdgeDistance(from, cur) <= EdgeDistance(from, to)
    requires cur != to
    ensures EdgeDistance(from, cur) < EdgeDistance(from, to)
    ensures NextEdgeN(from, EdgeDistance(from, cur)) == cur
    ensures EdgeDistance(from, GetNextEdge(cur)) == EdgeDistance(from, cur) + 1
    ensures EdgeDistance(GetNextEdge(cur), to) < EdgeDistance(cur, to)
  {
    DistanceReaches(from, cur);
    NextEdgeCycle();
  }

  /**
   * The coordinate that varies along an edge: longitude for N and S, latitude
   * for W and E, so the two alternate along the edge order.
   */
  function EdgeCoord(e: Edge, p: Pt): (r: real)
    ensures r == (if EdgeIdx(e) % 2 == 0 then p.lon else p.lat)
  {
    if e == N || e == S then p.lon else p.lat
  }

  /**
   * +1 when `ptEnd` lies after `ptStart` along `edge` in winding direction,
   * -1 when it lies before; division by zero when they share the coordinate.
   */
  function WindingDirOrder(edge: Edge, ptStart: Pt, ptEnd: Pt): (r: Result<int>)
    ensures r.Failure? <==> EdgeCoord(edge, ptEnd) == EdgeCoord(edge, ptStart)
    ensures r.Failure? ==> r.error == ZeroDivision
    ensures r.Success? ==> r.value == 1 || r.value == -1
    ensures r.Success? ==>
      (r.value == 1 <==> (EdgeWindingDir(edge) as real) * (EdgeCoord(edge, ptEnd) - EdgeCoord(edge, ptStart)) > 0.0)
  {
    var sign := EdgeCoord(edge, ptEnd) - EdgeCoord(edge, ptStart);
    if sign == 0.0 then Failure(ZeroDivision)
    else Success((if sign > 0.0 then 1 else -1) * EdgeWindingDir(edge))
  }

  /** Reading `(x, y, ...)` tuples as points with `lat = y` and `lon = x`. */
  function ConvertToPts(line: seq<Coord>): (r: Result<seq<Pt>>)
    ensures r.Success? <==> forall i :: 0 <= i < |line| ==> |line[i]| >= 2
    ensures r.Failure? ==> r.error == ShortCoordinate
    ensures r.Success? ==> |r.value| == |line|
    ensures r.Success? ==> forall i :: 0 <= i < |line| ==> r.value[i] == Pt(line[i][1], line[i][0])
  {
    if |line| == 0 then Success([])
    else if |line[0]| < 2 then Failure(ShortCoordinate)
    else
      match ConvertToPts(line[1..])
      case Failure(e) => Failure(e)
      case Success(rest) => Success([Pt(line[0][1], line[0][0])] + rest)
  }

  /** Writing points back as `(lon, lat, 0.0)` tuples. */
  function ConvertFromPts(ptLine: seq<Pt>): (r: seq<Coord>)
    ensures |r| == |ptLine|
    ensures forall i :: 0 <= i < |ptLine| ==> r[i] == [ptLine[i].lon, ptLine[i].lat, 0.0]
  {
    if |ptLine| == 0 then []
    else [[ptLine[0].lon, ptLine[0].lat, 0.0]] + ConvertFromPts(ptLine[1..])
  }

  /** Writing points out and reading them back gives the same points. */
  lemma ConvertRoundTrip(ptLine: seq<Pt>)
    ensures ConvertToPts(ConvertFromPts(ptLine)) == Success(ptLine)
  {
    var r := ConvertToPts(ConvertFromPts(ptLine));
    assert r.Success?;
    assert r.value == ptLine;
  }

  /** Reading a line and writing it back keeps x and y of every tuple and sets z to 0.0. */
  lemma ConvertBackKeepsXY(line: seq<Coord>)
    requires ConvertToPts(line).Success?
    ensures |ConvertFromPts(ConvertToPts(line).value)| == |line|
    ensures forall i :: 0 <= i < |line| ==>
      ConvertFromPts(ConvertToPts(line).value)[i] == [line[i][0], line[i][1], 0.0]
  {
  }

  lemma PositiveProduct(a: real, b: real)
    requires a > 0.0 && b > 0.0
    ensures a * b > 0.0
  {
  }

  /** Squaring is strictly increasing on the non-negative reals. */
  lemma SquareStrictMono(x: real, y: real)
    requires 0.0 <= x < y
    ensures x * x < y * y
  {
    PositiveProduct(y - x, y + x);
    assert (y - x) * (y + x) == y * y - x * x;
  }

  lemma SquareOfDifference(x: real, y: real)
    ensures (x - y) * (x - y) == (y - x) * (y - x)
  {
    var d := x - y;
    assert y - x == -d;
    assert (-d) * (-d) == d * d;
  }

  function Abs(x: real): real
  {
    if x < 0.0 then -x else x
  }

  /** A coordinate difference whose square stays below `eps * eps` (with a non-negative rest) is below `eps`. */
  lemma CoordBelowEps(d: real, rest: real, eps: real)
    requires eps > 0.0 && rest >= 0.0
    requires d * d + rest < eps * eps
    ensures Abs(d) < eps
  {
    if Abs(d) > eps {
      SquareStrictMono(eps, Abs(d));
    }
    assert Abs(d) * Abs(d) == d * d;
  }

  function SqDist(a: Pt, b: Pt): real
  {
    (a.lat - b.lat) * (a.lat - b.lat) + (a.lon - b.lon) * (a.lon - b.lon)
  }

  /** The default tolerance of the closer. */
  const DefaultEps: real := 0.000001

  /**
   * The bounding box and tolerance used to close contours. The fields are
   * set once at construction and only read afterwards.
   */
  class ContourCloser {
    const lonMin: real
    const lonMax: real
    const latMin: real
    const latMax: real
    const eps: real

    /** `bbox` is in the order of GDAL's `GetExtent`: (lon_min, lon_max, lat_min, lat_max). */
    constructor (bbox: (real, real, real, real), eps: real := DefaultEps)
      ensures lonMin == bbox.0 && lonMax == bbox.1
      ensures latMin == bbox.2 && latMax == bbox.3
      ensures this.eps == eps
    {
      lonMin := bbox.0;
      lonMax := bbox.1;
      latMin := bbox.2;
      latMax := bbox.3;
      this.eps := eps;
    }

    /**
     * Euclidean distance below `eps`: `sqrt(d2) < eps` holds iff `eps > 0 && d2 < eps * eps`.
     * Equal points are within `eps` in each coordinate.
     */
    predicate PtEquals(a: Pt, b: Pt): (r: bool)
      ensures r ==> Abs(a.lat - b.lat) < eps && Abs(a.lon - b.lon) < eps
    {
      if eps > 0.0 && SqDist(a, b) < eps * eps then
        CoordBelowEps(a.lat - b.lat, (a.lon - b.lon) * (a.lon - b.lon), eps);
        CoordBelowEps(a.lon - b.lon, (a.lat - b.lat) * (a.lat - b.lat), eps);
        true
      else false
    }

    /** `PtEquals` agrees with comparing the (non-negative) square root of the squared distance. */
    lemma PtEqualsIsDistanceBelowEps(a: Pt, b: Pt, dist: real)
      requires dist >= 0.0 && dist * dist == SqDist(a, b)
      ensures PtEquals(a, b) <==> dist < eps
    {
      if dist < eps {
        SquareStrictMono(dist, eps);
      }
      if eps > 0.0 && eps <= dist {
        if eps < dist {
          SquareStrictMono(eps, dist);
        }
      }
    }

    /** With a positive tolerance every point equals itself, and equality is symmetric. */
    lemma PtEqualsReflexiveSymmetric(a: Pt, b: Pt)
      ensures eps > 0.0 ==> PtEquals(a, a)
      ensures PtEquals(a, b) <==> PtEquals(b, a)
    {
      if eps > 0.0 {
        SquareStrictMono(0.0, eps);
        assert SqDist(a, a) == 0.0 < eps * eps;
      }
      SquareOfDifference(a.lat, b.lat);
      SquareOfDifference(a.lon, b.lon);
      assert SqDist(a, b) == SqDist(b, a);
    }

    /** Signed distance of `p` from the line of edge `e`. */
    function Offset(e: Edge, p: Pt): real
    {
      match e
      case N => p.lat - latMax
      case S => p.lat - latMin
      case W => p.lon - lonMin
      case E => p.lon - lonMax
    }

    /** `p` is strictly within `eps` of the line of edge `e`. */
    predicate NearEdge(p: Pt, e: Edge)
    {
      Abs(Offset(e, p)) < eps
    }

    /** `p` lies exactly on the line of edge `e`. */
    predicate OnEdgeLine(p: Pt, e: Edge)
    {
      Offset(e, p) == 0.0
    }

    /** The order in which `GetPointEdge` tests the edges. */
    function TestRank(e: Edge): nat
    {
      match e
      case N => 0
      case S => 1
      case W => 2
      case E => 3
    }

    /**
     * The edge `p` lies on: the first of N, S, W, E that is within `eps`,
     * or `NotOnBoundary` if none is.
     */
    function GetPointEdge(p: Pt): (r: Result<Edge>)
      ensures r.Success? <==> exists e: Edge :: NearEdge(p, e)
      ensures r.Failure? ==> r.error == NotOnBoundary(p)
      ensures r.Success? ==> NearEdge(p, r.value)
      ensures r.Success? ==> forall e: Edge :: TestRank(e) < TestRank(r.value) ==> !NearEdge(p, e)
    {
      if NearEdge(p, N) then Success(N)
      else if NearEdge(p, S) then Success(S)
      else if NearEdge(p, W) then Success(W)
      else if NearEdge(p, E) then Success(E)
      else Failure(NotOnBoundary(p))
    }

    /** The box corner that ends edge `e` in traversal order; it lies on `e` and on the next edge. */
    function NextBbCorner(e: Edge): (c: Pt)
      ensures OnEdgeLine(c, e) && OnEdgeLine(c, GetNextEdge(e))
    {
      match e
      case N => Pt(latMax, lonMin)
      case W => Pt(latMin, lonMin)
      case S => Pt(latMin, lonMax)
      case E => Pt(latMax, lonMax)
    }

    /** A point on the lines of two adjacent edges is the corner between them. */
    lemma CornerIsUnique(e: Edge, p: Pt)
      requires OnEdgeLine(p, e) && OnEdgeLine(p, GetNextEdge(e))
      ensures p == NextBbCorner(e)
    {
    }

    /**
     * With a positive tolerance and a box taller than `eps`, every corner is
     * classified as N or S: the latitude tests come first.
     */
    lemma CornerClassifiedNorthOrSouth(e: Edge)
      requires eps > 0.0 && latMax - latMin >= eps
      ensures GetPointEdge(NextBbCorner(e)) == Success(if e == N || e == E then N else S)
    {
    }

    /**
     * In a box whose bounds are ordered, walking edge `e` from the corner it
     * starts at to the corner it ends at moves its coordinate in the direction
     * of its winding sign.
     */
    lemma WindingFollowsTraversal(e: Edge)
      requires lonMin <= lonMax && latMin <= latMax
      ensures (EdgeWindingDir(e) as real) * (EdgeCoord(e, NextBbCorner(e)) - EdgeCoord(e, NextBbCorner(PrevEdge(e)))) >= 0.0
    {
      match e
      case N =>
      case W =>
      case S =>
      case E =>
    }

    /** On the line of one edge, a point is determined by its coordinate along that edge. */
    lemma EdgeCoordSeparates(e: Edge, p: Pt, q: Pt)
      requires OnEdgeLine(p, e) && OnEdgeLine(q, e)
      ensures p == q <==> EdgeCoord(e, p) == EdgeCoord(e, q)
    {
    }

    /** The corners of `k` consecutive edges starting at `e`, in walk order. */
    function CornerRun(e: Edge, k: nat): (r: seq<Pt>)
      ensures |r| == k
      ensures forall i :: 0 <= i < k ==> r[i] == NextBbCorner(NextEdgeN(e, i))
    {
      if k == 0 then [] else CornerRun(e, k - 1) + [NextBbCorner(NextEdgeN(e, k - 1))]
    }

    /** A corner run starts with the corner of its own edge. */
    lemma CornerRunHead(e: Edge, k: nat)
      requires k > 0
      ensures CornerRun(e, k) == [NextBbCorner(e)] + CornerRun(GetNextEdge(e), k - 1)
    {
      var a := CornerRun(e, k);
      var b := [NextBbCorner(e)] + CornerRun(GetNextEdge(e), k - 1);
      forall i | 0 <= i < k ensures a[i] == b[i] {
        if i > 0 {
          NextEdgeShift(e, i - 1);
        }
      }
    }

    /** `p` lies within tolerance of some edge. */
    predicate IsBoundaryPoint(p: Pt)
    {
      GetPointEdge(p).Success?
    }

    /**
     * What closing does, in closed form. An already-closed contour is returned
     * unchanged; two ends on one edge are joined directly; otherwise the corner
     * of the last point's edge is added, then the corners from that edge up to
     * (not including) the first point's edge, then the first point.
     */
    function CloseSpec(points: seq<Pt>): Result<seq<Pt>>
    {
      if |points| == 0 then Failure(EmptyPoints)
      else
        var first, last := points[0], points[|points| - 1];
        if PtEquals(first, last) then Success(points)
        else
          match GetPointEdge(first)
          case Failure(err) => Failure(err)
          case Success(firstEdge) =>
            match GetPointEdge(last)
            case Failure(err) => Failure(err)
            case Success(lastEdge) =>
              if firstEdge == lastEdge then
                if EdgeCoord(firstEdge, first) == EdgeCoord(firstEdge, last) then Failure(ZeroDivision)
                else Success(points + [first])
              else
                Success(points + [NextBbCorner(lastEdge)]
                        + CornerRun(lastEdge, EdgeDistance(lastEdge, firstEdge)) + [first])
    }

    /** Closes a contour given as points by appending box corners and the first point. */
    method ClosePoints(points: seq<Pt>) returns (r: Result<seq<Pt>>)
      ensures r == CloseSpec(points)
    {
      if |points| == 0 {
        return Failure(EmptyPoints);
      }
      var firstPoint := points[0];
      var lastPoint := points[|points| - 1];

      if PtEquals(firstPoint, lastPoint) {
        return Success(points);
      }

      var firstEdge := GetPointEdge(firstPoint);
      if firstEdge.Failure? {
        return Failure(firstEdge.error);
      }
      var lastEdge := GetPointEdge(lastPoint);
      if lastEdge.Failure? {
        return Failure(lastEdge.error);
      }
      var firstPointEdge, lastPointEdge := firstEdge.value, lastEdge.value;

      if lastPointEdge == firstPointEdge {
        var order := WindingDirOrder(firstPointEdge, lastPoint, firstPoint);
        if order.Failure? {
          return Failure(order.error);
        }
        // the order is tested for truth, and every non-zero number is true
        if order.value != 0 {
          return Success(points + [firstPoint]);
        }
      }

      var curEdge := lastPointEdge;
      var closed := points + [NextBbCorner(curEdge)];
      while true
        invariant EdgeDistance(lastPointEdge, curEdge) <= EdgeDistance(lastPointEdge, firstPointEdge)
        invariant closed == points + [NextBbCorner(lastPointEdge)]
                            + CornerRun(lastPointEdge, EdgeDistance(lastPointEdge, curEdge))
        decreases EdgeDistance(curEdge, firstPointEdge)
      {
        if curEdge == firstPointEdge {
          return Success(closed + [firstPoint]);
        }
        WalkStep(lastPointEdge, firstPointEdge, curEdge);
        closed := closed + [NextBbCorner(curEdge)];
        curEdge := GetNextEdge(curEdge);
      }
    }

    /** Closing a line of `(x, y, ...)` tuples: convert, close, convert back. */
    function CloseLineSpec(line: seq<Coord>): Result<seq<Coord>>
    {
      match ConvertToPts(line)
      case Failure(err) => Failure(err)
      case Success(points) =>
        match CloseSpec(points)
        case Failure(err) => Failure(err)
        case Success(closed) => Success(ConvertFromPts(closed))
    }

    /**
     * Closes a line of `(x, y, ...)` tuples; the result holds `(lon, lat, 0.0)`
     * tuples, starting with the input's x and y in order.
     */
    method CloseContour(line: seq<Coord>) returns (r: Result<seq<Coord>>)
      ensures r == CloseLineSpec(line)
      ensures r.Success? ==> |line| <= |r.value|
      ensures r.Success? ==> forall i :: 0 <= i < |line| ==> r.value[i] == [line[i][0], line[i][1], 0.0]
      ensures r.Success? ==> forall i :: 0 <= i < |r.value| ==> |r.value[i]| == 3 && r.value[i][2] == 0.0
    {
      var points := ConvertToPts(line);
      if points.Failure? {
        return Failure(points.error);
      }
      var closed := ClosePoints(points.value);
      if closed.Failure? {
        return Failure(closed.error);
      }
      CloseExtendsInput(points.value);
      r := Success(ConvertFromPts(closed.value));
    }

    /** Closing only appends: the input is a prefix of the output. */
    lemma CloseExtendsInput(points: seq<Pt>)
      requires CloseSpec(points).Success?
      ensures points <= CloseSpec(points).value
    {
    }

    /** When closing fails, and why. */
    lemma CloseFailures(points: seq<Pt>)
      ensures |points| == 0 ==> CloseSpec(points) == Failure(EmptyPoints)
      ensures |points| > 0 && !PtEquals(points[0], points[|points| - 1]) ==>
        (CloseSpec(points).Failure? <==>
          !IsBoundaryPoint(points[0]) || !IsBoundaryPoint(points[|points| - 1])
          || (GetPointEdge(points[0]) == GetPointEdge(points[|points| - 1])
              && EdgeCoord(GetPointEdge(points[0]).value, points[0])
                 == EdgeCoord(GetPointEdge(points[0]).value, points[|points| - 1])))
      ensures |points| > 0 && !PtEquals(points[0], points[|points| - 1]) && !IsBoundaryPoint(points[0]) ==>
        CloseSpec(points) == Failure(NotOnBoundary(points[0]))
      ensures |points| > 0 && !PtEquals(points[0], points[|points| - 1]) && IsBoundaryPoint(points[0])
              && !IsBoundaryPoint(points[|points| - 1]) ==>
        CloseSpec(points) == Failure(NotOnBoundary(points[|points| - 1]))
    {
    }

    /** An already-closed contour is returned unchanged; with `eps > 0` this covers every one-point contour. */
    lemma AlreadyClosedUnchanged(points: seq<Pt>)
      requires |points| > 0
      ensures PtEquals(points[0], points[|points| - 1]) ==> CloseSpec(points) == Success(points)
      ensures eps > 0.0 && |points| == 1 ==> CloseSpec(points) == Success(points)
    {
      PtEqualsReflexiveSymmetric(points[0], points[0]);
    }

    /** A contour that needed closing ends at its first point. */
    lemma CloseEndsAtStart(points: seq<Pt>)
      requires CloseSpec(points).Success?
      requires !PtEquals(points[0], points[|points| - 1])
      ensures var closed := CloseSpec(points).value;
        |closed| > |points| && closed[|closed| - 1] == points[0] && closed[0] == points[0]
    {
    }

    /** With `eps > 0`, closing a closed result changes nothing. */
    lemma CloseIdempotent(points: seq<Pt>)
      requires eps > 0.0
      requires CloseSpec(points).Success?
      ensures CloseSpec(CloseSpec(points).value) == CloseSpec(points)
    {
      var closed := CloseSpec(points).value;
      if !PtEquals(points[0], points[|points| - 1]) {
        CloseEndsAtStart(points);
      }
      PtEqualsReflexiveSymmetric(points[0], points[0]);
      assert closed[0] == points[0];
      assert PtEquals(closed[0], closed[|closed| - 1]);
    }

    /**
     * Two ends on the same edge, with different coordinates along it, are
     * joined by appending the first point alone, whichever way they wind.
     */
    lemma SameEdgeClosesDirectly(points: seq<Pt>)
      requires |points| > 0
      requires !PtEquals(points[0], points[|points| - 1])
      requires GetPointEdge(points[0]).Success?
      requires GetPointEdge(points[0]) == GetPointEdge(points[|points| - 1])
      ensures WindingDirOrder(GetPointEdge(points[0]).value, points[|points| - 1], points[0]).Success? ==>
        CloseSpec(points) == Success(points + [points[0]])
      ensures EdgeCoord(GetPointEdge(points[0]).value, points[0])
              == EdgeCoord(GetPointEdge(points[0]).value, points[|points| - 1]) ==>
        CloseSpec(points) == Failure(ZeroDivision)
    {
    }

    /**
     * Ends on different edges: the appended points are the corner of the last
     * point's edge twice, then the corners of the following edges up to but
     * excluding the first point's edge, then the first point. Between three and
     * five points are appended, of which two to four are corners.
     */
    lemma CornerWalkAppends(points: seq<Pt>)
      requires |points| > 0
      requires !PtEquals(points[0], points[|points| - 1])
      requires GetPointEdge(points[0]).Success? && GetPointEdge(points[|points| - 1]).Success?
      requires GetPointEdge(points[0]) != GetPointEdge(points[|points| - 1])
      ensures var firstEdge, lastEdge := GetPointEdge(points[0]).value, GetPointEdge(points[|points| - 1]).value;
        var steps := EdgeDistance(lastEdge, firstEdge);
        && 1 <= steps <= 3
        && CloseSpec(points) == Success(points + [NextBbCorner(lastEdge), NextBbCorner(lastEdge)]
                                        + CornerRun(GetNextEdge(lastEdge), steps - 1) + [points[0]])
        && 3 <= |CloseSpec(points).value| - |points| <= 5
    {
      var firstEdge, lastEdge := GetPointEdge(points[0]).value, GetPointEdge(points[|points| - 1]).value;
      var steps := EdgeDistance(lastEdge, firstEdge);
      DistanceReaches(lastEdge, firstEdge);
      assert steps != 0;
      CornerRunHead(lastEdge, steps);
      var corner, first := NextBbCorner(lastEdge), points[0];
      assert points + [corner] + CornerRun(lastEdge, steps) + [first]
          == points + [corner, corner] + CornerRun(GetNextEdge(lastEdge), steps - 1) + [first];
    }

    /** Every point closing appends is the first point or a box corner. */
    lemma AppendedAreCornersOrStart(points: seq<Pt>)
      requires CloseSpec(points).Success?
      ensures var closed := CloseSpec(points).value;
        forall i :: |points| <= i < |closed| ==>
          closed[i] == points[0] || exists e: Edge :: closed[i] == NextBbCorner(e)
    {
      var closed := CloseSpec(points).value;
      forall i | |points| <= i < |closed|
        ensures closed[i] == points[0] || exists e: Edge :: closed[i] == NextBbCorner(e)
      {
        if closed[i] != points[0] {
          var firstEdge, lastEdge := GetPointEdge(points[0]).value, GetPointEdge(points[|points| - 1]).value;
          var run := CornerRun(lastEdge, EdgeDistance(lastEdge, firstEdge));
          if i == |points| {
            assert closed[i] == NextBbCorner(lastEdge);
          } else {
            assert closed[i] == run[i - |points| - 1];
            assert closed[i] == NextBbCorner(NextEdgeN(lastEdge, i - |points| - 1));
          }
        }
      }
    }

    /**
     * A box from 0 to 10 in both directions: a contour from the N edge at
     * lon 3 to the E edge at lat 7 gets the E corner twice and then its start.
     */
    lemma NorthToEastExample(mid: Pt)
      requires lonMin == 0.0 && lonMax == 10.0 && latMin == 0.0 && latMax == 10.0
      requires eps == DefaultEps
      ensures CloseSpec([Pt(10.0, 3.0), mid, Pt(7.0, 10.0)])
           == Success([Pt(10.0, 3.0), mid, Pt(7.0, 10.0), Pt(10.0, 10.0), Pt(10.0, 10.0), Pt(10.0, 3.0)])
    {
      var points := [Pt(10.0, 3.0), mid, Pt(7.0, 10.0)];
      assert SqDist(points[0], points[2]) == 58.0;
      assert !PtEquals(points[0], points[2]);
      assert GetPointEdge(points[0]) == Success(N);
      assert GetPointEdge(points[2]) == Success(E);
      assert EdgeDistance(E, N) == 1;
      assert NextEdgeN(E, 0) == E;
      assert CornerRun(E, 1) == [Pt(10.0, 10.0)];
      assert CloseSpec(points) == Success(points + [Pt(10.0, 10.0)] + CornerRun(E, 1) + [points[0]]);
      assert points + [Pt(10.0, 10.0)] + [Pt(10.0, 10.0)] + [points[0]]
          == [Pt(10.0, 3.0), mid, Pt(7.0, 10.0), Pt(10.0, 10.0), Pt(10.0, 10.0), Pt(10.0, 3.0)];
    }
  }
}
