/**
 * One part (stroke) of a letter as an object: a cursor into its ordered
 * waypoints, the tracing and completed flags, and the waypoints themselves,
 * whose visuals it shows and hides in place. Every handler is proved to
 * change the part exactly as the matching function of TraceSpec says.
 */
module TraceParts {
  import opened Waypoints
  import TraceSpec

  class TracePart {
    /** The waypoints of the path, in the order they must be reached. */
    const waypoints: seq<Waypoint>
    /** How close the pointer must come to a waypoint to reach it. */
    const threshold: real

    /** The next waypoint to reach. */
    var index: nat
    var isTracing: bool
    var isCompleted: bool
    /** Whether the letter has enabled this part's input. */
    var enabled: bool
    var fill: TraceSpec.Fill
    /** How many completion listeners are registered on this part's completion event. */
    var listeners: nat

    /** The waypoints, as a set of objects. */
    ghost const Dots: set<object>

    /** The objects this part may change: itself and its waypoints. */
    ghost function Repr(): set<object>
    {
      {this} + Dots
    }

    /** No waypoint appears twice, and each is in the footprint. */
    ghost predicate Distinct()
    {
      && (forall i, j :: 0 <= i < j < |waypoints| ==> waypoints[i] != waypoints[j])
      && (forall i :: 0 <= i < |waypoints| ==> waypoints[i] in Dots)
    }

    ghost function Visuals(): (v: seq<Visual>)
      reads waypoints
      ensures |v| == |waypoints|
    {
      seq(|waypoints|, i requires 0 <= i < |waypoints| reads waypoints => waypoints[i].visual)
    }

    /** The part as a value of TraceSpec. */
    ghost function View(): TraceSpec.Part
      reads this, waypoints
    {
      TraceSpec.Part(Visuals(), index, isTracing, isCompleted, enabled, fill, listeners)
    }

    ghost predicate Valid()
      reads this, waypoints
    {
      Distinct() && TraceSpec.Valid(View())
    }

    /** A part as the scene creates it: enabled, not tracing, clear fill, no listeners yet. */
    constructor (waypoints: seq<Waypoint>, threshold: real)
      requires forall i, j :: 0 <= i < j < |waypoints| ==> waypoints[i] != waypoints[j]
      ensures this.waypoints == waypoints && this.threshold == threshold
      ensures Dots == set w | w in waypoints
      ensures Valid()
      ensures index == 0 && !isTracing && !isCompleted && enabled
      ensures fill == TraceSpec.Clear && listeners == 0
    {
      this.waypoints := waypoints;
      this.threshold := threshold;
      Dots := set w | w in waypoints;
      index := 0;
      isTracing := false;
      isCompleted := false;
      enabled := true;
      fill := TraceSpec.Clear;
      listeners := 0;
    }

    /**
     * Whether the pointer is within the threshold of the waypoint at the
     * cursor. Only that waypoint is looked at, and with the cursor at the end
     * no waypoint is near.
     */
    function NearCursor(pointer: Point): (r: bool)
      reads this
      ensures r ==> index < |waypoints|
      ensures index < |waypoints| ==> (r <==> Near(pointer, waypoints[index].position, threshold))
    {
      index < |waypoints| && Near(pointer, waypoints[index].position, threshold)
    }

    method Activate()
      requires Valid()
      modifies this
      ensures Valid()
      ensures View() == TraceSpec.Activate(old(View()))
    {
      isCompleted := false;
      index := 0;
      fill := TraceSpec.Guide;
    }

    method OnMouseDown()
      requires Valid()
      modifies this
      ensures Valid()
      ensures View() == TraceSpec.MouseDown(old(View()))
    {
      if enabled && !isCompleted {
        isTracing := true;
      }
    }

    /** One drag tick with the pointer at `pointer`; `fired` says whether the completion event fired. */
    method OnMouseDrag(pointer: Point) returns (fired: bool)
      requires Valid()
      modifies Repr()
      ensures Valid()
      ensures (View(), fired) == TraceSpec.Drag(old(View()), old(NearCursor(pointer)))
    {
      fired := false;
      if !isTracing {
        return;
      }
      if index < |waypoints| {
        if Near(pointer, waypoints[index].position, threshold) {
          index := index + 1;
          ActivateNextWaypointVisual();
        }
      }
      var progress := 0.0;
      if |waypoints| > 0 {
        progress := index as real / |waypoints| as real;
      }
      fill := TraceSpec.Tinted(progress);
      if index >= |waypoints| {
        fired := CompleteTrace();
      }
    }

    method OnMouseUp()
      requires Valid()
      modifies Repr()
      ensures Valid()
      ensures View() == TraceSpec.MouseUp(old(View()))
    {
      if isTracing && !isCompleted {
        ResetTrace();
      }
      isTracing := false;
    }

    method OnMouseExit()
      requires Valid()
      modifies Repr()
      ensures Valid()
      ensures View() == TraceSpec.MouseExit(old(View()))
    {
      if isTracing {
        ResetTrace();
        isTracing := false;
      }
    }

    /** Back to the first waypoint, hiding the visual of every waypoint in turn. */
    method ResetTrace()
      requires Valid() && !isCompleted
      modifies Repr()
      ensures Valid()
      ensures View() == TraceSpec.Reset(old(View()))
    {
      index := 0;
      fill := TraceSpec.Guide;
      var i := 0;
      while i < |waypoints|
        invariant 0 <= i <= |waypoints|
        invariant forall j :: 0 <= j < i ==> waypoints[j].visual == Deactivated(old(waypoints[j].visual))
        invariant forall j :: i <= j < |waypoints| ==> waypoints[j].visual == old(waypoints[j].visual)
        invariant index == 0 && fill == TraceSpec.Guide
        invariant isTracing == old(isTracing) && isCompleted == old(isCompleted)
        invariant enabled == old(enabled) && listeners == old(listeners)
      {
        assert waypoints[i] in Repr();
        waypoints[i].Deactivate();
        i := i + 1;
      }
      assert Visuals() == TraceSpec.HideAll(old(Visuals()));
    }

    /** Marks the part completed, once; `fired` says whether the completion event fired. */
    method CompleteTrace() returns (fired: bool)
      requires Valid() && index == |waypoints|
      modifies this
      ensures Valid()
      ensures (View(), fired) == TraceSpec.Complete(old(View()))
    {
      fired := false;
      if isCompleted {
        return;
      }
      isCompleted := true;
      isTracing := false;
      fill := TraceSpec.Solid;
      fired := true;
    }

    /** Shows the visual of the waypoint just passed, the one before the cursor. */
    method ActivateNextWaypointVisual()
      requires Valid()
      modifies Repr()
      ensures Valid()
      ensures View() == TraceSpec.ShowPassed(old(View()))
    {
      var passed: int := index - 1;
      if 0 <= passed < |waypoints| {
        assert waypoints[passed] in Repr();
        waypoints[passed].Activate();
        assert Visuals() == old(Visuals())[passed := Activated(old(waypoints[passed].visual))];
      }
    }
  }
}
