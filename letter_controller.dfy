/**
 * A letter as an object: its parts in tracing order and the cursor of the
 * part being traced. Each operation is proved to change the letter and its
 * parts exactly as the matching function of LetterSpec says.
 */
module Letters {
  import TraceSpec
  import LetterSpec
  import opened TraceParts

  class LetterController {
    /** The parts of the letter, in the order the player must trace them. */
    const parts: seq<TracePart>
    /** The part being traced. */
    var current: nat
    /** How many times the letter-completed event has fired. */
    var letterCompleted: nat

    /** The parts and their waypoints. */
    ghost const PartsRepr: set<object>

    /** The objects the letter may change: itself, its parts and their waypoints. */
    ghost function Repr(): set<object>
    {
      {this} + PartsRepr
    }

    /**
     * The letter owns its parts and their waypoints, and no two parts share
     * an object. This reads only constant fields, so it never changes once
     * the constructor has established it.
     */
    ghost predicate Owned()
    {
      && this !in PartsRepr
      && (forall i :: 0 <= i < |parts| ==> parts[i].Repr() <= PartsRepr && parts[i].Distinct())
      && (forall i, j :: 0 <= i < j < |parts| ==> parts[i].Repr() !! parts[j].Repr())
    }

    /** The letter is owned and each of its parts is valid. */
    ghost predicate Valid()
      reads PartsRepr
    {
      Owned() && forall i :: 0 <= i < |parts| ==> parts[i].Valid()
    }

    /** Every part has the letter's handler registered exactly once. */
    ghost predicate Subscribed()
      reads parts
    {
      forall i :: 0 <= i < |parts| ==> parts[i].listeners == 1
    }

    ghost function PartViews(): (v: seq<TraceSpec.Part>)
      requires Owned()
      reads PartsRepr
      ensures |v| == |parts| && forall i :: 0 <= i < |parts| ==> v[i] == parts[i].View()
    {
      seq(|parts|, i requires 0 <= i < |parts| reads PartsRepr => parts[i].View())
    }

    /** The letter as a value of LetterSpec. */
    ghost function View(): LetterSpec.Letter
      requires Owned()
      reads this, Repr()
    {
      LetterSpec.Letter(PartViews(), current, letterCompleted)
    }

    constructor (parts: seq<TracePart>)
      requires forall i, j :: 0 <= i < j < |parts| ==> parts[i].Repr() !! parts[j].Repr()
      requires forall i :: 0 <= i < |parts| ==> parts[i].Valid()
      ensures this.parts == parts && Valid()
      ensures PartsRepr == set i, o | 0 <= i < |parts| && o in parts[i].Repr() :: o
      ensures current == 0 && letterCompleted == 0
    {
      this.parts := parts;
      PartsRepr := set i, o | 0 <= i < |parts| && o in parts[i].Repr() :: o;
      current := 0;
      letterCompleted := 0;
    }

    /** Sets the letter up: every part disabled and subscribed once, then the first part activated. */
    method InitializeLetter()
      requires Valid()
      modifies Repr()
      ensures Valid() && Subscribed()
      ensures View() == LetterSpec.Initialize(old(View()))
    {
      ghost var before := View();
      current := 0;
      var i := 0;
      while i < |parts|
        invariant 0 <= i <= |parts|
        invariant Valid()
        invariant current == 0 && letterCompleted == before.letterEvents
        invariant forall j :: 0 <= j < i ==> parts[j].View() == LetterSpec.Prepared(before.parts[j])
        invariant forall j :: i <= j < |parts| ==> parts[j].View() == before.parts[j]
      {
        PreparePart(i);
        i := i + 1;
      }
      ghost var prepared := seq(|before.parts|, j requires 0 <= j < |before.parts| => LetterSpec.Prepared(before.parts[j]));
      assert PartViews() == prepared;
      if |parts| > 0 {
        ActivateCurrentPart();
      }
    }

    /** One turn of the set-up loop: disables part `k` and registers the handler on it exactly once. */
    method PreparePart(k: nat)
      requires Valid() && k < |parts|
      modifies parts[k]
      ensures Valid()
      ensures parts[k].View() == LetterSpec.Prepared(old(parts[k].View()))
      ensures forall j :: 0 <= j < |parts| && j != k ==> parts[j].View() == old(parts[j].View())
    {
      var part := parts[k];
      part.enabled := false;
      part.listeners := LetterSpec.RemoveListener(part.listeners);
      part.listeners := LetterSpec.AddListener(part.listeners);
    }

    /** Enables and activates the part at the cursor, if there is one. */
    method ActivateCurrentPart()
      requires Valid()
      modifies Repr()
      ensures Valid()
      ensures View() == LetterSpec.ActivateCurrent(old(View()))
    {
      if current < |parts| {
        var part := parts[current];
        assert part in part.Repr();
        part.enabled := true;
        part.Activate();
      }
    }

    /** The handler of a part's completion event. */
    method OnPartCompleted()
      requires Valid()
      modifies Repr()
      ensures Valid()
      ensures View() == LetterSpec.PartCompleted(old(View()))
    {
      current := current + 1;
      if current >= |parts| {
        letterCompleted := letterCompleted + 1;
      } else {
        ActivateCurrentPart();
      }
    }
  }
}
