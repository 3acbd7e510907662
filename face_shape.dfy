/** The face-landmark reshaping of lib/YtFaceShape.js: a list of 90 landmark points, given as
    separate x and y coordinate lists, is cut into eight named segments by position. */
module FaceShapes {

  /** A landmark point. Coordinates are the decoded 16-bit signed integers, so `int`. */
  datatype Point = Point(x: int, y: int) {
    /** Component-wise sum. */
    function Add(o: Point): Point {
      Point(x + o.x, y + o.y)
    }

    /** Component-wise difference. */
    function Sub(o: Point): Point {
      Point(x - o.x, y - o.y)
    }
  }

  /** `new Point()`: both coordinates default to 0. */
  const Origin: Point := Point(0, 0)

  /** Subtraction undoes addition and the other way round, addition is commutative and has
      the origin as its unit, and subtracting a point from itself gives the origin. */
  lemma PointArithmetic(p: Point, q: Point)
    ensures p.Add(q).Sub(q) == p && p.Sub(q).Add(q) == p
    ensures p.Add(q) == q.Add(p)
    ensures p.Add(Origin) == p && p.Sub(Origin) == p
    ensures p.Sub(p) == Origin
  {
  }

  /** `shape.xList[k]` as the constructor passes it on: past the end of the list the value
      is `undefined`, which the default parameter of `Point` turns into 0. */
  function Coord(xs: seq<int>, k: nat): int {
    if k < |xs| then xs[k] else 0
  }

  /** The point the constructor builds from position `k` of the two lists. */
  function Landmark(xs: seq<int>, ys: seq<int>, k: nat): Point {
    Point(Coord(xs, k), Coord(ys, k))
  }

  /** The first `n` landmark points. */
  function Landmarks(xs: seq<int>, ys: seq<int>, n: nat): (ps: seq<Point>)
    ensures |ps| == n
    ensures forall k | 0 <= k < n && k < |xs| && k < |ys| :: ps[k] == Point(xs[k], ys[k])
    ensures forall k | |xs| <= k < n :: ps[k].x == 0
    ensures forall k | |ys| <= k < n :: ps[k].y == 0
  {
    seq(n, k requires 0 <= k => Landmark(xs, ys, k))
  }

  /** Sizes of the segments, in order: left eyebrow, right eyebrow, left eye, right eye,
      nose, mouth, face profile, pupils. */
  const SegmentSizes: seq<nat> := [8, 8, 8, 8, 13, 22, 21, 2]

  /** Number of segments. */
  const SegmentCount: nat := 8

  /** Index of the first point of segment `j`: the sizes of the segments before it. */
  function Offset(j: nat): nat
    requires j <= SegmentCount
  {
    if j == 0 then 0 else Offset(j - 1) + SegmentSizes[j - 1]
  }

  /** The segments start at 0, 8, 16, 24, 32, 45, 67 and 88, none is empty, and together
      they cover exactly 90 points. */
  lemma SegmentLayout()
    ensures |SegmentSizes| == SegmentCount
    ensures forall j | 0 <= j < SegmentCount :: SegmentSizes[j] > 0
    ensures [Offset(0), Offset(1), Offset(2), Offset(3), Offset(4), Offset(5), Offset(6), Offset(7)]
            == [0, 8, 16, 24, 32, 45, 67, 88]
    ensures Offset(SegmentCount) == 90
  {
  }

  /** Segment `j` of the landmark list. */
  function Segment(xs: seq<int>, ys: seq<int>, j: nat): seq<Point>
    requires j < SegmentCount
  {
    Landmarks(xs, ys, Offset(j + 1))[Offset(j)..]
  }

  /** All eight segments, in order. */
  function Segments(xs: seq<int>, ys: seq<int>): (segs: seq<seq<Point>>)
    ensures |segs| == SegmentCount
  {
    seq(SegmentCount, j requires 0 <= j < SegmentCount => Segment(xs, ys, j))
  }

  /** Concatenation of a list of segments. */
  function Flatten(segs: seq<seq<Point>>): seq<Point>
    decreases |segs|
  {
    if segs == [] then [] else Flatten(segs[..|segs| - 1]) + segs[|segs| - 1]
  }

  /** The first `j` segments, concatenated, are the first `Offset(j)` landmark points. */
  lemma {:induction false} SegmentsPrefix(xs: seq<int>, ys: seq<int>, j: nat)
    requires j <= SegmentCount
    ensures Flatten(Segments(xs, ys)[..j]) == Landmarks(xs, ys, Offset(j))
  {
    if j > 0 {
      var segs := Segments(xs, ys);
      SegmentsPrefix(xs, ys, j - 1);
      assert segs[..j][..j - 1] == segs[..j - 1];
      var whole := Landmarks(xs, ys, Offset(j));
      assert Landmarks(xs, ys, Offset(j - 1)) == whole[..Offset(j - 1)];
      assert whole == whole[..Offset(j - 1)] + whole[Offset(j - 1)..];
    }
  }

  /** The segments tile the landmark list: concatenated in order they are its 90 points,
      each point used once. */
  lemma SegmentsTile(xs: seq<int>, ys: seq<int>)
    ensures Flatten(Segments(xs, ys)) == Landmarks(xs, ys, 90)
  {
    SegmentsPrefix(xs, ys, SegmentCount);
    assert Segments(xs, ys)[..SegmentCount] == Segments(xs, ys);
  }

  /** `new Array(size)` for segment `j`, then the constructor's loop for it:
      `seg[i] = new Point(xList[idx], yList[idx])` with `idx` running on from the segment's
      offset; returns the array and the index after the segment. */
  method NewSegment(size: nat, xs: seq<int>, ys: seq<int>, start: nat, ghost j: nat)
    returns (seg: array<Point>, idx: nat)
    requires j < SegmentCount && size == SegmentSizes[j] && start == Offset(j)
    ensures fresh(seg)
    ensures idx == Offset(j + 1)
    ensures seg[..] == Segment(xs, ys, j)
  {
    seg := new Point[size](_ => Origin);
    idx := start;
    var i := 0;
    while i < seg.Length
      invariant 0 <= i <= seg.Length && idx == start + i
      invariant forall k | 0 <= k < i :: seg[k] == Landmark(xs, ys, start + k)
    {
      seg[i] := Point(Coord(xs, idx), Coord(ys, idx));
      idx := idx + 1;
      i := i + 1;
    }
  }

  /** Eight sequences that are, position by position, the segments of the landmark list are
      `Segments`, and their concatenation is the first 90 points. */
  lemma SegmentsAssembled(parts: seq<seq<Point>>, xs: seq<int>, ys: seq<int>)
    requires |parts| == SegmentCount
    requires forall j | 0 <= j < SegmentCount :: parts[j] == Segment(xs, ys, j)
    ensures parts == Segments(xs, ys)
    ensures Flatten(parts) == Landmarks(xs, ys, 90)
  {
    SegmentsTile(xs, ys);
  }

  /** `YtFaceShape`: eight point arrays, filled in order from one running index. */
  class FaceShape {
    var leftEyebrow: array<Point>
    var rightEyebrow: array<Point>
    var leftEye: array<Point>
    var rightEye: array<Point>
    var nose: array<Point>
    var mouth: array<Point>
    var faceProfile: array<Point>
    var pupil: array<Point>

    /** The contents of the eight arrays, in declaration order. */
    function Parts(): seq<seq<Point>>
      reads this, leftEyebrow, rightEyebrow, leftEye, rightEye, nose, mouth, faceProfile, pupil
    {
      [leftEyebrow[..], rightEyebrow[..], leftEye[..], rightEye[..], nose[..], mouth[..],
       faceProfile[..], pupil[..]]
    }

    /** `new YtFaceShape(shape)` on `shape.xList = xs`, `shape.yList = ys`: the arrays hold the
        segments of the landmark list, so together they are its first 90 points in order;
        when both lists have 90 points, those are the points of the lists. */
    constructor (xs: seq<int>, ys: seq<int>)
      ensures Parts() == Segments(xs, ys)
      ensures Flatten(Parts()) == Landmarks(xs, ys, 90)
      ensures |xs| >= 90 && |ys| >= 90 ==>
                forall k | 0 <= k < 90 :: Flatten(Parts())[k] == Point(xs[k], ys[k])
    {
      SegmentLayout();
      var idx := 0;
      var seg;
      seg, idx := NewSegment(8, xs, ys, idx, 0);
      leftEyebrow := seg;
      seg, idx := NewSegment(8, xs, ys, idx, 1);
      rightEyebrow := seg;
      seg, idx := NewSegment(8, xs, ys, idx, 2);
      leftEye := seg;
      seg, idx := NewSegment(8, xs, ys, idx, 3);
      rightEye := seg;
      seg, idx := NewSegment(13, xs, ys, idx, 4);
      nose := seg;
      seg, idx := NewSegment(22, xs, ys, idx, 5);
      mouth := seg;
      seg, idx := NewSegment(21, xs, ys, idx, 6);
      faceProfile := seg;
      seg, idx := NewSegment(2, xs, ys, idx, 7);
      pupil := seg;
      new;
      SegmentsAssembled(Parts(), xs, ys);
    }
  }
}
