/**
 * A waypoint is one dot on a tracing path. Its only state is whether its
 * visual (the dot shown once the player has traced over it) is active.
 * The visual is an optional scene reference; when it is not assigned,
 * every operation leaves the waypoint as it is.
 */
module Waypoints {

  /** A position in the 2D world, in the same coordinates as the pointer. */
  datatype Point = Point(x: real, y: real)

  function DistanceSquared(p: Point, q: Point): (d: real)
    ensures d >= 0.0
    ensures p == q ==> d == 0.0
  {
    (p.x - q.x) * (p.x - q.x) + (p.y - q.y) * (p.y - q.y)
  }

  /**
   * The pointer is near a waypoint when its Euclidean distance to it is
   * strictly below the threshold. The distance is compared squared, which
   * is exact over the reals (see NearIsDistanceBelowThreshold).
   */
  predicate Near(pointer: Point, target: Point, threshold: real)
  {
    threshold > 0.0 && DistanceSquared(pointer, target) < threshold * threshold
  }

  /** For any distance `d` (the non-negative root of the squared distance), Near is `d < threshold`. */
  lemma NearIsDistanceBelowThreshold(pointer: Point, target: Point, threshold: real, d: real)
    requires d >= 0.0 && d * d == DistanceSquared(pointer, target)
    ensures Near(pointer, target, threshold) <==> d < threshold
  {
    if d < threshold {
      calc {
        DistanceSquared(pointer, target);
      ==
        d * d;
      <= { assert d * (threshold - d) >= 0.0; }
        d * threshold;
      < { assert threshold * (threshold - d) > 0.0; }
        threshold * threshold;
      }
    } else if threshold > 0.0 {
      assert threshold * threshold <= threshold * d;
      assert threshold * d <= d * d;
    }
  }

  /** The visual of a waypoint: not assigned, or assigned with its active flag. */
  datatype Visual = Unassigned | Assigned(active: bool)

  /** The dot is on screen. */
  predicate Shown(v: Visual)
  {
    v.Assigned? && v.active
  }

  /** Start-up: an assigned visual is hidden; a missing one is only reported. */
  function Awoken(v: Visual): (r: Visual)
    ensures r.Assigned? == v.Assigned?
    ensures !Shown(r)
  {
    if v.Assigned? then Assigned(false) else v
  }

  /** Show the dot, if there is one. */
  function Activated(v: Visual): (r: Visual)
    ensures r.Assigned? == v.Assigned?
    ensures v.Assigned? ==> Shown(r)
    ensures v.Unassigned? ==> r == v
  {
    if v.Assigned? then Assigned(true) else v
  }

  /** Hide the dot, if there is one. */
  function Deactivated(v: Visual): (r: Visual)
    ensures r.Assigned? == v.Assigned?
    ensures !Shown(r)
    ensures v.Unassigned? ==> r == v
  {
    if v.Assigned? then Assigned(false) else v
  }

  /** Activate and Deactivate are idempotent, and each one's result does not depend on an earlier call of the other. */
  lemma ToggleIdempotent(v: Visual)
    ensures Activated(Activated(v)) == Activated(v)
    ensures Deactivated(Deactivated(v)) == Deactivated(v)
    ensures Activated(Deactivated(v)) == Activated(v)
    ensures Deactivated(Activated(v)) == Deactivated(v)
  {
  }

  class Waypoint {
    const position: Point
    var visual: Visual

    constructor (position: Point, visual: Visual)
      ensures this.position == position && this.visual == visual
    {
      this.position := position;
      this.visual := visual;
    }

    /** Hides an assigned visual when the scene starts. */
    method Awake()
      modifies this
      ensures visual == Awoken(old(visual))
    {
      if visual.Assigned? {
        visual := Assigned(false);
      }
    }

    method Activate()
      modifies this
      ensures visual == Activated(old(visual))
    {
      if visual.Assigned? {
        visual := Assigned(true);
      }
    }

    method Deactivate()
      modifies this
      ensures visual == Deactivated(old(visual))
    {
      if visual.Assigned? {
        visual := Assigned(false);
      }
    }
  }
}
