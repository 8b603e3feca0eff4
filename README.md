# Letter tracing: trace-progress model

A model, in Dafny, of the trace-progress logic of a 2D letter-tracing game.
A letter is made of parts (strokes) that the player must trace in order.
Each part owns an ordered list of waypoints (dots) and keeps a cursor to the
next waypoint to reach, plus a tracing flag and a completed flag. The player
presses on the part, drags through the waypoints in order, and releases. A
release before the end resets the part, and so does leaving the part's
area while tracing. Reaching the last waypoint completes the part. Its
completion event calls the letter's handler, which moves the letter's own
cursor to the next part and either activates that part or fires the
letter-completed event.

The project has two layers:

- **Values.** `TraceSpec` models one part as a datatype, with one function
  per handler. `LetterSpec` models the letter, including how a pointer event
  reaches a part and, through the completion event, the letter. The lemmas
  are stated over these functions: completion fires at most once, progress
  needs one near tick per waypoint, initialisation puts the letter in order,
  and pointer events keep it in order.
- **Objects.** `Waypoints.Waypoint`, `TraceParts.TracePart` and
  `Letters.LetterController` are classes whose methods update fields in
  place, as the game's components do. Each method is proved to change its
  object's view exactly as the matching value function says. The
  `Scene` module routes one pointer event to one part and proves that the
  letter's view changes as `LetterSpec.Deliver` says. It also proves that
  the letter stays in order.

Modelling choices:

- **Nearness.** The pointer is near a waypoint when its Euclidean distance is
  strictly below the threshold. This is computed exactly on `real` as squared
  distance against squared threshold; `NearIsDistanceBelowThreshold` shows the
  two tests agree. The class handler `OnMouseDrag` takes the pointer's world
  position as a parameter. The value model `TraceSpec.Drag` takes only the
  outcome of the nearness test of the waypoint at the cursor.
- **Completion event.** It is modelled by a returned `fired` flag. Each part
  counts the handlers registered on its event (`listeners`). Unity's
  `RemoveListener` drops every registration of the handler, and
  `AddListener` adds one.
- **Fill colour.** Only its alpha is modelled: `Clear`, `Guide`,
  `Tinted(alpha)` or `Solid`.
- **Waypoint visuals.** A visual is either unassigned or assigned with an
  active flag.

Behaviour of the code that one might expect to be otherwise, modelled as
written:

- **Completed versus cursor at the end.** One might expect a part to be
  completed exactly when its cursor equals the waypoint count. The code keeps
  that for every part with at least one waypoint (`EndMeansCompletedKept`).
  Only for a part with no waypoints can the cursor be at the count without
  the part being completed: `Activate` puts it there. `TraceSpec.Valid` states the
  invariant every handler keeps:
  - the cursor is at most the count;
  - tracing implies not completed;
  - completed implies the cursor is at the count.
- **Finished parts stay enabled.** One might expect a finished part to be
  disabled. The letter never disables a part it has finished with. Such a part ignores presses only because it is completed
  (`TraceSpec.MouseDown`, `LetterSpec.InOrder`).
- **Re-initialising.** It does not clear a part's tracing flag. `Activate`
  does not hide waypoint visuals. Both are modelled as written.

## Model

| member | source | states |
|---|---|---|
| Waypoints.NearIsDistanceBelowThreshold | Assets/Scripts/TracePart.cs:140 | For the non-negative distance d between pointer and waypoint, the squared-distance test Near holds exactly when d is strictly below the threshold |
| Waypoints.Awoken | Assets/Scripts/Waypoint.cs:12-22 | At start-up an assigned visual ends hidden; an unassigned one stays unassigned |
| Waypoints.Activated | Assets/Scripts/Waypoint.cs:25-29 | An assigned visual ends shown; with no visual nothing changes |
| Waypoints.Deactivated | Assets/Scripts/Waypoint.cs:32-36 | An assigned visual ends hidden; with no visual nothing changes |
| Waypoints.ToggleIdempotent | Assets/Scripts/Waypoint.cs:25-36 | Activate and Deactivate are each idempotent, and each one's result does not depend on a prior call of the other |
| Waypoints.Waypoint.Awake | Assets/Scripts/Waypoint.cs:12-22 | The object's visual becomes Awoken of the old visual |
| Waypoints.Waypoint.Activate | Assets/Scripts/Waypoint.cs:25-29 | The object's visual becomes Activated of the old visual |
| Waypoints.Waypoint.Deactivate | Assets/Scripts/Waypoint.cs:32-36 | The object's visual becomes Deactivated of the old visual |
| TraceSpec.Ratio | Assets/Scripts/TracePart.cs:149-153 | Progress lies in [0, 1] while the cursor is in range. It is 0 exactly when the cursor is 0 or there are no waypoints, and 1 exactly when every waypoint of a non-empty path is reached |
| TraceSpec.RatioGrows | Assets/Scripts/TracePart.cs:149-155 | A higher cursor always shows strictly more progress |
| TraceSpec.Activate | Assets/Scripts/TracePart.cs:91-98 | Whatever the prior state: cursor 0, not completed, guide fill, and the invariant holds. Visuals, tracing flag, enabled flag and listeners are untouched |
| TraceSpec.MouseDown | Assets/Scripts/TracePart.cs:101-113 | Tracing starts exactly when the part is enabled and not completed; otherwise nothing changes; only the tracing flag can change |
| TraceSpec.ShowPassed | Assets/Scripts/TracePart.cs:248-254 | Only the visual at cursor-1 is activated, and only when that index is in range; every other visual is unchanged |
| TraceSpec.Complete | Assets/Scripts/TracePart.cs:222-245 | The event fires exactly when the part was not yet completed. Afterwards the part is completed, and on firing it is not tracing and has a solid fill. A completed part is left unchanged |
| TraceSpec.CompleteIdempotent | Assets/Scripts/TracePart.cs:225 | Completing twice changes nothing the second time and does not fire again |
| TraceSpec.HideAll | Assets/Scripts/TracePart.cs:215-218 | Every visual ends hidden and the assigned/unassigned pattern is kept |
| TraceSpec.Reset | Assets/Scripts/TracePart.cs:202-219 | Cursor 0, guide fill, every visual hidden; the flags, enabled state and listeners are unchanged |
| TraceSpec.Drag | Assets/Scripts/TracePart.cs:116-162 | With no trace in progress, nothing changes and nothing fires. The cursor rises by at most one, and rises exactly when tracing, near the waypoint at the cursor, and not at the end. Only the waypoint just passed becomes shown, and a tick that does not advance changes no visual. Tracing continues unless the tick completes the part. The fill alpha is cursor/count. The event fires exactly when tracing, not yet completed, and at the end. A part with no waypoints completes on its first tick. The invariant is kept |
| TraceSpec.MouseUp | Assets/Scripts/TracePart.cs:165-184 | Tracing always stops. A trace in progress that is not completed is reset (cursor 0, all hidden, guide fill). Otherwise only the tracing flag changes, so a completed part keeps its cursor. The invariant is kept |
| TraceSpec.MouseExit | Assets/Scripts/TracePart.cs:187-199 | While tracing, the part is reset and tracing stops. Otherwise nothing changes. The invariant is kept |
| TraceSpec.EndMeansCompletedKept | Assets/Scripts/TracePart.cs:143-160 | From an activated part, over any sequence of pointer events, a part with waypoints whose cursor is at the end is completed; with Valid, it is completed exactly when its cursor is at the end |
| TraceSpec.Step | Assets/Scripts/TracePart.cs:101-199 | Any pointer event keeps the invariant and keeps a part at the end completed, fires exactly when it completes the part, never undoes completion, and advances the cursor only on a near drag tick |
| TraceSpec.CompletionFiresAtMostOnce | Assets/Scripts/TracePart.cs:222-245 | Over any sequence of pointer events, the completion event fires at most once. It fires exactly when the part ends completed having started not completed. A completed part stays completed and never fires again |
| TraceSpec.CompletionNeedsNearTicks | Assets/Scripts/TracePart.cs:137-146 | Over any sequence of pointer events, the cursor rises by no more than the number of near drag ticks. Completion from cursor k needs at least count-k of them, so no waypoint can be skipped |
| TraceSpec.NearMovesComplete | Assets/Scripts/TracePart.cs:137-161 | While tracing, with at least one waypoint remaining, one near tick per remaining waypoint completes the part, fires once, and shows every assigned visual |
| TraceSpec.TracingEveryWaypointCompletes | Assets/Scripts/TracePart.cs:101-161 | A press then one near tick per waypoint completes an activated, enabled part with at least one waypoint, fires the event once, and shows every assigned visual |
| TraceParts.TracePart.constructor | Assets/Scripts/TracePart.cs:69-87 | A new part has its waypoint list, and its footprint is itself and exactly those waypoints. It has cursor 0, is enabled, is neither tracing nor completed, has a clear fill and no listeners, and satisfies the invariant |
| TraceParts.TracePart.NearCursor | Assets/Scripts/TracePart.cs:137-140 | Only the waypoint at the cursor is tested against the pointer; with the cursor at the end, no waypoint is near |
| TraceParts.TracePart.Activate | Assets/Scripts/TracePart.cs:91-98 | The part's view becomes TraceSpec.Activate of the old view |
| TraceParts.TracePart.OnMouseDown | Assets/Scripts/TracePart.cs:101-113 | The part's view becomes TraceSpec.MouseDown of the old view |
| TraceParts.TracePart.OnMouseDrag | Assets/Scripts/TracePart.cs:116-162 | The part's view and the fired flag are TraceSpec.Drag of the old view and the nearness of the pointer to the waypoint at the old cursor; the waypoint objects are updated in place |
| TraceParts.TracePart.OnMouseUp | Assets/Scripts/TracePart.cs:165-184 | The part's view becomes TraceSpec.MouseUp of the old view |
| TraceParts.TracePart.OnMouseExit | Assets/Scripts/TracePart.cs:187-199 | The part's view becomes TraceSpec.MouseExit of the old view |
| TraceParts.TracePart.ResetTrace | Assets/Scripts/TracePart.cs:202-219 | The loop deactivates each waypoint object in turn, and the part's view becomes TraceSpec.Reset of the old view. It is called only on a part that is not completed, as both callers guarantee |
| TraceParts.TracePart.CompleteTrace | Assets/Scripts/TracePart.cs:222-245 | The part's view and fired flag are TraceSpec.Complete of the old view. It is called only with the cursor at the end, as its caller guarantees |
| TraceParts.TracePart.ActivateNextWaypointVisual | Assets/Scripts/TracePart.cs:248-254 | The part's view becomes TraceSpec.ShowPassed of the old view |
| LetterSpec.RemoveListener | Assets/Scripts/LetterController.cs:42 | Removing the handler leaves no registration of it, however many there were |
| LetterSpec.AddListener | Assets/Scripts/LetterController.cs:45 | Adding the handler registers it exactly once more, on top of any existing registration |
| LetterSpec.RemoveThenAddSubscribesOnce | Assets/Scripts/LetterController.cs:42-45 | Remove then add leaves exactly one registration whatever came before; a further add would leave two |
| LetterSpec.Prepared | Assets/Scripts/LetterController.cs:37-45 | Each part is disabled and left with exactly one listener; nothing else about it changes |
| LetterSpec.ReinitializeKeepsOneListener | Assets/Scripts/LetterController.cs:42-45 | Initialising twice still leaves exactly one listener on every part, because removal precedes addition |
| LetterSpec.ActivateCurrent | Assets/Scripts/LetterController.cs:56-66 | Within range, only the part at the cursor changes: it is enabled and activated. Out of range, nothing changes |
| LetterSpec.Initialize | Assets/Scripts/LetterController.cs:29-53 | The cursor is 0 and every part has one listener. Every part after the first is disabled. The first part, if any, is enabled and activated. The letter event does not fire, which covers the empty letter |
| LetterSpec.PartCompleted | Assets/Scripts/LetterController.cs:69-85 | The cursor rises by exactly one. Past the last part, the letter event fires and no part changes. Otherwise exactly the part at the new cursor is enabled and activated. With no terminal guard, a later call fires the event again |
| LetterSpec.Notify | Assets/Scripts/TracePart.cs:244 | Invoking a part's completion event runs the letter's handler once per registration: the letter cursor rises by the number of registrations, with none nothing changes, and with one it is exactly PartCompleted |
| LetterSpec.Deliver | Assets/Scripts/TracePart.cs:244 | An event reaches one part, and when the part's event fires, the letter's handler runs once per listener. The part count is unchanged; DeliverKeepsOrder states what this means for the letter |
| LetterSpec.InitializeEstablishesOrder | Assets/Scripts/LetterController.cs:29-53 | After initialising, the letter is in order: earlier parts completed, the cursor part enabled and not completed, later parts disabled. Part 0 alone is enabled, with cursor 0 |
| LetterSpec.DeliverKeepsOrder | Assets/Scripts/LetterController.cs:69-85 | Any pointer event on any part keeps the letter in order. Either the cursor stays, or the cursor part was completed and the cursor rose by one. The letter event fires exactly when the last part completes. Parts other than the target and the next one are unchanged |
| LetterSpec.OneWaypointLetterCompletes | Assets/Scripts/LetterController.cs:69-79 | In a letter in order whose only part has one waypoint and its cursor at 0, a press keeps the cursor at 0, and a near drag tick then moves the letter cursor past the end and fires the letter event once |
| LetterSpec.LetterCompletesOnce | Assets/Scripts/LetterController.cs:69-85 | Over any sequence of pointer events, a letter in order stays in order and its cursor never goes back. The letter event fires at most once: exactly when the cursor first reaches the end |
| Letters.LetterController.constructor | Assets/Scripts/LetterController.cs:10-20 | A letter owns its parts (pairwise disjoint), and its footprint is exactly its parts and their waypoints. It starts at cursor 0 and has not fired its event |
| Letters.LetterController.InitializeLetter | Assets/Scripts/LetterController.cs:29-53 | The loop prepares every part object in turn, and the letter's view becomes LetterSpec.Initialize of the old view. Every part then has one listener |
| Letters.LetterController.PreparePart | Assets/Scripts/LetterController.cs:37-45 | Part k's view becomes LetterSpec.Prepared of its old view; every other part is unchanged |
| Letters.LetterController.ActivateCurrentPart | Assets/Scripts/LetterController.cs:56-66 | The letter's view becomes LetterSpec.ActivateCurrent of the old view |
| Letters.LetterController.OnPartCompleted | Assets/Scripts/LetterController.cs:69-85 | The letter's view becomes LetterSpec.PartCompleted of the old view |
| Scene.StartLetter | Assets/Scripts/LetterController.cs:23-26 | A letter built from valid, disjoint parts, none but the first tracing, and then started is new, owns exactly those parts and their waypoints, and is in order: cursor 0, every part subscribed once, only the first part enabled, no letter event. Part 0 is activated and enabled; every later part is prepared |
| Scene.TraceOneStrokeLetter | Assets/Scripts/LetterController.cs:23-26 | On objects: a started letter of one part with one waypoint, pressed and then dragged onto the waypoint, fires its letter-completed event exactly once |
| Scene.PressPart | Assets/Scripts/TracePart.cs:101-113 | A press on part k changes the letter's view as LetterSpec.Deliver says, and keeps a letter in order |
| Scene.DragPart | Assets/Scripts/TracePart.cs:116-162 | A drag tick on part k changes the letter's view as LetterSpec.Deliver says, including the synchronous call of the letter's handler. It keeps a letter in order |
| Scene.DragAndNotify | Assets/Scripts/TracePart.cs:158-160 | The part handler and, when its event fires, the letter's handler, change the letter's view as LetterSpec.Deliver says |
| Scene.ReleasePart | Assets/Scripts/TracePart.cs:165-184 | A release on part k changes the letter's view as LetterSpec.Deliver says, and keeps a letter in order |
| Scene.LeavePart | Assets/Scripts/TracePart.cs:187-199 | Leaving part k changes the letter's view as LetterSpec.Deliver says, and keeps a letter in order |

## Left out

- **Camera.** `OnMouseDrag` returns early with an error when there is no main camera (Assets/Scripts/TracePart.cs:121-125). The model assumes a camera and takes the pointer's world position directly; screen-to-world conversion is engine code.
- **Pencil.** Showing, hiding and moving the pencil sprite is presentation with no effect on progress.
- **Audio and logging.** Sounds and logging are side effects outside the model.
- **Colours.** Only the fill's alpha is kept: clear, guide, tinted by progress, solid. The colour values are not modelled.
- **Floating point.** Single-precision arithmetic is not modelled. Distances and progress are exact reals, so rounding at the threshold boundary is not captured.
- **Missing fill sprite.** `Awake` returns early when the fill sprite is missing (Assets/Scripts/TracePart.cs:56-61). The model assumes it is assigned.
- **Waypoint discovery.** Waypoints are found among the children of a container object in `Awake`. The model passes the waypoint sequence to the constructor. Children without a Waypoint component, which are only logged, are not modelled.
- **Game objects.** `gameObject.SetActive(true)` on each part (Assets/Scripts/LetterController.cs:38) has no effect on progress.
- **Unused field.** The `score` field is never used.
- **Unity lifecycle.** `Awake` and `Start` become the constructors and an explicit call of `InitializeLetter`.
- **Other handlers.** Handlers other than the letter's on a part's completion event, and listeners of the letter-completed event, are not modelled. The letter-completed event is a counter (`letterEvents`).
- **Shared parts.** The letter's parts must be distinct and must not share waypoints, because each part's footprint is disjoint from the others'. The game's part list would accept the same part twice, or two parts sharing a waypoint container; the model cannot represent such a letter.
- **Other files.** The game manager and the scene loader are not part of this model.
- TraceSpec.Drag: takes the nearness of the waypoint at the cursor as a boolean. The geometry is stated separately by `Waypoints.Near` and `TraceParts.TracePart.NearCursor`, which `OnMouseDrag` ties together.
- **Event routing.** Choosing the part under the pointer is engine code. Each `Scene` method is told which part `k` receives the event.
