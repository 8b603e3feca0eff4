/**
 * The state of one letter, as values: its parts in tracing order, the
 * cursor of the part being traced, and how many times the
 * letter-completed event has fired. The class in module Letters runs the
 * same operations on objects and is proved to agree with these.
 */
module LetterSpec {
  import TraceSpec

  datatype Letter = Letter(parts: seq<TraceSpec.Part>, current: nat, letterEvents: nat)

  /** Removing the letter's handler drops every registration of it, however many there were. */
  function RemoveListener(listeners: nat): (r: nat)
    ensures r == 0
  {
    0
  }

  /** Adding the handler registers it once more, on top of any registration already there. */
  function AddListener(listeners: nat): (r: nat)
    ensures r > listeners && r - listeners == 1
  {
    listeners + 1
  }

  /**
   * Adding alone would subscribe the handler twice on a second
   * initialisation; removing first leaves exactly one registration whatever
   * came before.
   */
  lemma RemoveThenAddSubscribesOnce(listeners: nat)
    ensures AddListener(RemoveListener(listeners)) == 1
    ensures AddListener(AddListener(RemoveListener(listeners))) == 2
  {
  }

  /** What initialisation does to each part: input disabled, handler removed then added. */
  function Prepared(p: TraceSpec.Part): (r: TraceSpec.Part)
    ensures !r.enabled && r.listeners == 1
    ensures r.(enabled := p.enabled, listeners := p.listeners) == p
  {
    p.(enabled := false, listeners := AddListener(RemoveListener(p.listeners)))
  }

  /** Enables and activates the part at the cursor, when the cursor is in range; nothing else changes. */
  function ActivateCurrent(l: Letter): (r: Letter)
    ensures r.current == l.current && r.letterEvents == l.letterEvents && |r.parts| == |l.parts|
    ensures forall i :: 0 <= i < |l.parts| && i != l.current ==> r.parts[i] == l.parts[i]
    ensures l.current < |l.parts| ==> r.parts[l.current] == TraceSpec.Activate(l.parts[l.current]).(enabled := true)
    ensures l.current >= |l.parts| ==> r == l
  {
    if l.current < |l.parts| then
      l.(parts := l.parts[l.current := TraceSpec.Activate(l.parts[l.current].(enabled := true))])
    else l
  }

  /**
   * Initialisation: cursor back to the first part, every part disabled and
   * subscribed exactly once, then the first part, if any, enabled and
   * activated. The letter-completed event does not fire.
   */
  function Initialize(l: Letter): (r: Letter)
    ensures r.current == 0 && r.letterEvents == l.letterEvents && |r.parts| == |l.parts|
    ensures forall i :: 0 <= i < |r.parts| ==> r.parts[i].listeners == 1
    ensures forall i :: 0 < i < |r.parts| ==> r.parts[i] == Prepared(l.parts[i])
    ensures 0 < |l.parts| ==> r.parts[0] == TraceSpec.Activate(l.parts[0]).(enabled := true, listeners := 1)
  {
    var prepared := Letter(seq(|l.parts|, i requires 0 <= i < |l.parts| => Prepared(l.parts[i])), 0, l.letterEvents);
    if 0 < |l.parts| then ActivateCurrent(prepared) else prepared
  }

  /** Re-initialising leaves each part with one listener, never two. */
  lemma ReinitializeKeepsOneListener(l: Letter)
    ensures forall i :: 0 <= i < |l.parts| ==> Initialize(Initialize(l)).parts[i].listeners == 1
  {
  }

  /**
   * The handler of a part's completion: the cursor moves to the next part;
   * past the last part the letter-completed event fires, otherwise the
   * part at the new cursor is enabled and activated. There is no guard, so
   * a call after the letter is complete fires the event again.
   */
  function PartCompleted(l: Letter): (r: Letter)
    ensures r.current == l.current + 1 && |r.parts| == |l.parts|
    ensures r.current >= |l.parts| ==> r.letterEvents == l.letterEvents + 1 && r.parts == l.parts
    ensures r.current < |l.parts| ==> r.letterEvents == l.letterEvents
    ensures r.current < |l.parts| ==> r.parts[r.current] == TraceSpec.Activate(l.parts[r.current]).(enabled := true)
    ensures forall i :: 0 <= i < |l.parts| && i != r.current ==> r.parts[i] == l.parts[i]
  {
    var next := l.(current := l.current + 1);
    if next.current >= |next.parts| then next.(letterEvents := next.letterEvents + 1)
    else ActivateCurrent(next)
  }

  /** A part's completion event calls the handler once per registration. */
  function Notify(l: Letter, listeners: nat): (r: Letter)
    ensures |r.parts| == |l.parts|
    ensures r.current == l.current + listeners
    ensures r.letterEvents >= l.letterEvents
    ensures listeners == 0 ==> r == l
    ensures listeners == 1 ==> r == PartCompleted(l)
    decreases listeners
  {
    if listeners == 0 then l else PartCompleted(Notify(l, listeners - 1))
  }

  /**
   * A pointer event delivered to part `k`; when the part's completion event
   * fires, it calls the letter's handler synchronously.
   */
  function Deliver(l: Letter, k: nat, input: TraceSpec.Input): (r: Letter)
    requires k < |l.parts|
    ensures |r.parts| == |l.parts|
  {
    var (q, fired) := TraceSpec.Step(l.parts[k], input);
    var stepped := l.(parts := l.parts[k := q]);
    if fired then Notify(stepped, q.listeners) else stepped
  }

  /**
   * The order the letter keeps: every part valid and subscribed once; the
   * parts before the cursor completed (and still enabled); the part at the
   * cursor enabled and not completed; the parts after it disabled and not
   * tracing.
   */
  predicate InOrder(l: Letter)
  {
    && l.current <= |l.parts|
    && (forall i :: 0 <= i < |l.parts| ==> TraceSpec.Valid(l.parts[i]) && l.parts[i].listeners == 1)
    && (forall i :: 0 <= i < l.current ==> l.parts[i].completed && l.parts[i].enabled)
    && (l.current < |l.parts| ==> l.parts[l.current].enabled && !l.parts[l.current].completed)
    && (forall i :: l.current < i < |l.parts| ==> !l.parts[i].enabled && !l.parts[i].tracing)
  }

  /**
   * Initialising a letter whose later parts are not in the middle of a
   * trace puts it in order, with only the first part enabled.
   */
  lemma InitializeEstablishesOrder(l: Letter)
    requires forall i :: 0 <= i < |l.parts| ==> TraceSpec.Valid(l.parts[i])
    requires forall i :: 0 < i < |l.parts| ==> !l.parts[i].tracing
    ensures InOrder(Initialize(l))
    ensures forall i :: 0 <= i < |l.parts| ==> (Initialize(l).parts[i].enabled <==> i == 0)
    ensures 0 < |l.parts| ==> Initialize(l).parts[0].index == 0
  {
  }

  /**
   * Delivering a pointer event keeps the letter in order. Only the part at
   * the cursor can complete, and its completion moves the cursor by exactly
   * one; the letter-completed event fires exactly when the last part
   * completes. No part other than the one receiving the event and the one
   * newly activated changes.
   */
  lemma DeliverKeepsOrder(l: Letter, k: nat, input: TraceSpec.Input)
    requires InOrder(l) && k < |l.parts|
    ensures InOrder(Deliver(l, k, input))
    ensures var r := Deliver(l, k, input);
      || (r.current == l.current && r.letterEvents == l.letterEvents)
      || (r.current == l.current + 1 && k == l.current && l.parts[k] != r.parts[k] && r.parts[k].completed)
    ensures var r := Deliver(l, k, input);
      r.letterEvents == l.letterEvents + (if r.current == |l.parts| && l.current < |l.parts| then 1 else 0)
    ensures var r := Deliver(l, k, input);
      forall i :: 0 <= i < |l.parts| && i != k && i != l.current + 1 ==> r.parts[i] == l.parts[i]
  {
    var (q, fired) := TraceSpec.Step(l.parts[k], input);
    var stepped := l.(parts := l.parts[k := q]);
    if fired {
      assert k == l.current;
    }
  }

  /**
   * The smallest complete game: in a letter in order whose only part has
   * one waypoint and its cursor at the start, a press and one near drag
   * tick fire the letter-completed event once.
   */
  lemma OneWaypointLetterCompletes(l: Letter)
    requires InOrder(l) && |l.parts| == 1 && l.current == 0
    requires |l.parts[0].dots| == 1 && l.parts[0].index == 0
    ensures Deliver(l, 0, TraceSpec.Press).parts[0].index == 0
    ensures Deliver(Deliver(l, 0, TraceSpec.Press), 0, TraceSpec.Move(true)).letterEvents == l.letterEvents + 1
    ensures Deliver(Deliver(l, 0, TraceSpec.Press), 0, TraceSpec.Move(true)).current == 1
  {
    var pressed := Deliver(l, 0, TraceSpec.Press);
    assert pressed.parts[0] == l.parts[0].(tracing := true);
  }

  /** A sequence of pointer events, each naming the part it reaches. */
  datatype Event = Event(part: nat, input: TraceSpec.Input)

  predicate Targets(l: Letter, events: seq<Event>)
  {
    forall i :: 0 <= i < |events| ==> events[i].part < |l.parts|
  }

  function RunLetter(l: Letter, events: seq<Event>): (r: Letter)
    requires Targets(l, events)
    ensures |r.parts| == |l.parts|
    decreases |events|
  {
    if events == [] then l
    else
      RunLetter(Deliver(l, events[0].part, events[0].input), events[1..])
  }

  /**
   * However the pointer events arrive, a letter in order fires its
   * letter-completed event at most once: once if the run takes the cursor
   * past the last part, never if it was already there.
   */
  lemma {:induction false} LetterCompletesOnce(l: Letter, events: seq<Event>)
    requires InOrder(l) && Targets(l, events)
    ensures InOrder(RunLetter(l, events))
    ensures RunLetter(l, events).current >= l.current
    ensures RunLetter(l, events).letterEvents
      == l.letterEvents + (if RunLetter(l, events).current == |l.parts| && l.current < |l.parts| then 1 else 0)
    decreases |events|
  {
    if events != [] {
      var next := Deliver(l, events[0].part, events[0].input);
      DeliverKeepsOrder(l, events[0].part, events[0].input);
      LetterCompletesOnce(next, events[1..]);
      assert RunLetter(l, events) == RunLetter(next, events[1..]);
    }
  }
}
