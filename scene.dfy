/**
 * How pointer events reach a letter's parts: the event goes to one part,
 * and when that part's completion event fires it synchronously calls the
 * letter's handler. Each method is proved to agree with LetterSpec.Deliver,
 * so the lemmas of LetterSpec about Deliver (DeliverKeepsOrder,
 * LetterCompletesOnce) hold of the objects.
 */
module Scene {
  import opened Waypoints
  import TraceSpec
  import LetterSpec
  import opened TraceParts
  import opened Letters

  /**
   * A letter built from fresh parts and started, as the scene does on load:
   * it is in order, with only its first part enabled and every part
   * subscribed once.
   */
  method StartLetter(parts: seq<TracePart>) returns (letter: LetterController)
    requires forall i, j :: 0 <= i < j < |parts| ==> parts[i].Repr() !! parts[j].Repr()
    requires forall i :: 0 <= i < |parts| ==> parts[i].Valid()
    requires forall i :: 0 < i < |parts| ==> !parts[i].isTracing
    modifies set i, o | 0 <= i < |parts| && o in parts[i].Repr() :: o
    ensures fresh(letter)
    ensures letter.PartsRepr == set i, o | 0 <= i < |parts| && o in parts[i].Repr() :: o
    ensures letter.parts == parts && letter.Valid() && letter.Subscribed()
    ensures letter.current == 0 && letter.letterCompleted == 0
    ensures 0 < |parts| ==> parts[0].View() == TraceSpec.Activate(old(parts[0].View())).(enabled := true, listeners := 1)
    ensures forall i :: 0 < i < |parts| ==> parts[i].View() == LetterSpec.Prepared(old(parts[i].View()))
    ensures LetterSpec.InOrder(letter.View())
    ensures forall i :: 0 <= i < |parts| ==> (parts[i].enabled <==> i == 0)
  {
    letter := new LetterController(parts);
    ghost var before := letter.View();
    letter.InitializeLetter();
    LetterSpec.InitializeEstablishesOrder(before);
  }

  method PressPart(letter: LetterController, k: nat)
    requires letter.Valid() && letter.Subscribed() && k < |letter.parts|
    modifies letter.Repr()
    ensures letter.Valid() && letter.Subscribed()
    ensures letter.View() == LetterSpec.Deliver(old(letter.View()), k, TraceSpec.Press)
    ensures LetterSpec.InOrder(old(letter.View())) ==> LetterSpec.InOrder(letter.View())
  {
    ghost var before := letter.View();
    letter.parts[k].OnMouseDown();
    if LetterSpec.InOrder(before) {
      LetterSpec.DeliverKeepsOrder(before, k, TraceSpec.Press);
    }
  }

  /** A drag tick on part `k`; when it completes the part, the letter advances before this returns. */
  method DragPart(letter: LetterController, k: nat, pointer: Point)
    requires letter.Valid() && letter.Subscribed() && k < |letter.parts|
    modifies letter.Repr()
    ensures letter.Valid() && letter.Subscribed()
    ensures letter.View()
      == LetterSpec.Deliver(old(letter.View()), k, TraceSpec.Move(old(letter.parts[k].NearCursor(pointer))))
    ensures LetterSpec.InOrder(old(letter.View())) ==> LetterSpec.InOrder(letter.View())
  {
    ghost var before := letter.View();
    ghost var input := TraceSpec.Move(letter.parts[k].NearCursor(pointer));
    DragAndNotify(letter, k, pointer);
    if LetterSpec.InOrder(before) {
      LetterSpec.DeliverKeepsOrder(before, k, input);
    }
  }

  /** The drag tick itself: the part's handler, then the letter's handler when the part's event fires. */
  method DragAndNotify(letter: LetterController, k: nat, pointer: Point)
    requires letter.Valid() && letter.Subscribed() && k < |letter.parts|
    modifies letter.Repr()
    ensures letter.Valid() && letter.Subscribed()
    ensures letter.View()
      == LetterSpec.Deliver(old(letter.View()), k, TraceSpec.Move(old(letter.parts[k].NearCursor(pointer))))
  {
    ghost var before := letter.View();
    ghost var input := TraceSpec.Move(letter.parts[k].NearCursor(pointer));
    var fired := letter.parts[k].OnMouseDrag(pointer);
    ghost var stepped := before.(parts := before.parts[k := letter.parts[k].View()]);
    assert (letter.parts[k].View(), fired) == TraceSpec.Step(before.parts[k], input);
    assert letter.View() == stepped;
    if fired {
      letter.OnPartCompleted();
    }
  }

  method ReleasePart(letter: LetterController, k: nat)
    requires letter.Valid() && letter.Subscribed() && k < |letter.parts|
    modifies letter.Repr()
    ensures letter.Valid() && letter.Subscribed()
    ensures letter.View() == LetterSpec.Deliver(old(letter.View()), k, TraceSpec.Release)
    ensures LetterSpec.InOrder(old(letter.View())) ==> LetterSpec.InOrder(letter.View())
  {
    ghost var before := letter.View();
    letter.parts[k].OnMouseUp();
    forall j | 0 <= j < |letter.parts| && j != k
      ensures letter.parts[j].View() == old(letter.parts[j].View()) && letter.parts[j].Valid()
    {
    }
    if LetterSpec.InOrder(before) {
      LetterSpec.DeliverKeepsOrder(before, k, TraceSpec.Release);
    }
  }

  method LeavePart(letter: LetterController, k: nat)
    requires letter.Valid() && letter.Subscribed() && k < |letter.parts|
    modifies letter.Repr()
    ensures letter.Valid() && letter.Subscribed()
    ensures letter.View() == LetterSpec.Deliver(old(letter.View()), k, TraceSpec.Leave)
    ensures LetterSpec.InOrder(old(letter.View())) ==> LetterSpec.InOrder(letter.View())
  {
    ghost var before := letter.View();
    letter.parts[k].OnMouseExit();
    forall j | 0 <= j < |letter.parts| && j != k
      ensures letter.parts[j].View() == old(letter.parts[j].View()) && letter.parts[j].Valid()
    {
    }
    if LetterSpec.InOrder(before) {
      LetterSpec.DeliverKeepsOrder(before, k, TraceSpec.Leave);
    }
  }

  /**
   * A whole game on objects: a letter of one part with one waypoint is
   * started, pressed, and dragged onto the waypoint; the letter-completed
   * event fires exactly once.
   */
  method TraceOneStrokeLetter() returns (events: nat)
    ensures events == 1
  {
    var dot := new Waypoint(Point(0.0, 0.0), Assigned(false));
    var stroke := new TracePart([dot], 0.5);
    var letter := StartLetter([stroke]);
    ghost var started := letter.View();
    LetterSpec.OneWaypointLetterCompletes(started);
    PressPart(letter, 0);
    assert stroke.index == letter.View().parts[0].index == 0;
    assert stroke.NearCursor(Point(0.1, 0.0));
    DragPart(letter, 0, Point(0.1, 0.0));
    events := letter.letterCompleted;
  }
}
