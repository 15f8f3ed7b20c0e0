/**
 * `Trail`: the two-sample recorder behind an arm's tip path. It keeps only
 * the last two samples; each frame draws at most the one segment joining
 * them onto a persistent surface (the surface itself is not modelled).
 */
module TrailRecorder {
  import opened Geometry
  import opened Wrappers

  /** The segment a trail draws, from the older sample to the newer. */
  datatype Segment = Segment(from: Vec2, to: Vec2)

  /**
   * The value of a trail: the rest-pose tip it was seeded with (written, never
   * read), its two most recent samples, and how many samples it has taken
   * since it was last reset.
   */
  datatype TrailState = TrailState(firstPoint: Vec2, currentPoint: Vec2, previousPoint: Vec2, length: nat)
  {
    /** `Trail::new_point`: the current sample becomes the previous one. */
    function NewPoint(p: Vec2): TrailState
    {
      this.(previousPoint := currentPoint, currentPoint := p, length := length + 1)
    }

    /** `Trail::reset`: only the count is cleared; both samples are left as they were. */
    function Reset(): TrailState
    {
      this.(length := 0)
    }

    /** `Trail::draw`: the segment drawn this frame, if at least two samples were taken. */
    function Draw(): Option<Segment>
    {
      if length >= 2 then Some(Segment(previousPoint, currentPoint)) else None
    }
  }

  /** A new trail (`Trail::Trail`): all points at the origin and no samples. */
  const Blank := TrailState(Origin, Origin, Origin, 0)

  /** The trail after `points` have been recorded, in order. */
  function Record(t: TrailState, points: seq<Vec2>): TrailState
  {
    if points == [] then t else Record(t, points[..|points| - 1]).NewPoint(points[|points| - 1])
  }

  lemma {:induction false} RecordCounts(t: TrailState, points: seq<Vec2>)
    ensures Record(t, points).length == t.length + |points|
  {
    if points != [] {
      RecordCounts(t, points[..|points| - 1]);
    }
  }

  /**
   * After a reset, a trail draws nothing until it has two samples, and from
   * then on draws exactly the segment joining the two most recent ones.
   */
  lemma DrawJoinsLastTwo(t: TrailState, points: seq<Vec2>)
    ensures Record(t.Reset(), points).Draw()
         == if |points| >= 2 then Some(Segment(points[|points| - 2], points[|points| - 1])) else None
  {
    var n := |points|;
    RecordCounts(t.Reset(), points);
    if n >= 2 {
      var init := points[..n - 1];
      assert init[..n - 2] == points[..n - 2];
      assert Record(t.Reset(), init).currentPoint == points[n - 2];
    }
  }

  /** The recorder object; `State` is its value. */
  class Trail {
    var firstPoint: Vec2
    var currentPoint: Vec2
    var previousPoint: Vec2
    var length: nat

    function State(): TrailState
      reads this
    {
      TrailState(firstPoint, currentPoint, previousPoint, length)
    }

    constructor ()
      ensures State() == Blank
    {
      firstPoint, currentPoint, previousPoint := Origin, Origin, Origin;
      length := 0;
    }

    method NewPoint(p: Vec2)
      modifies this
      ensures State() == old(State()).NewPoint(p)
    {
      length := length + 1;
      previousPoint := currentPoint;
      currentPoint := p;
    }

    method Reset()
      modifies this
      ensures State() == old(State()).Reset()
    {
      length := 0;
    }

    method Draw() returns (segment: Option<Segment>)
      ensures segment == State().Draw()
      ensures segment.Some? <==> length >= 2
    {
      if length >= 2 {
        segment := Some(Segment(previousPoint, currentPoint));
      } else {
        segment := None;
      }
    }
  }
}
