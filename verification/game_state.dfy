/** The game-status state machine: four statuses, the reducer that moves
    between them, and the status a contents change requests. */
module GameState {
  import opened Common

  datatype Status = InvalidGrid | CanStart | Started | Complete

  /** The status the reducer starts in. */
  const InitialStatus: Status := InvalidGrid

  /** The status reducer: a request for `CanStart` is ignored once the game
      has started; every other request is granted. */
  function NextStatus(current: Status, requested: Status): (r: Status)
    ensures current == Started && requested == CanStart ==> r == Started
    ensures !(current == Started && requested == CanStart) ==> r == requested
  {
    if requested == Started && current == CanStart then requested
    else if requested == CanStart && current == Started then current
    else requested
  }

  /** The request made after the contents change, by priority: an empty grid
      asks for `InvalidGrid`, a complete one for `Complete`, a valid one for
      `CanStart`; anything else makes no request. */
  function RequestedStatus(isEmpty: bool, isComplete: bool, isValid: bool): (r: Option<Status>)
    ensures r == Some(InvalidGrid) <==> isEmpty
    ensures r == Some(Complete) <==> !isEmpty && isComplete
    ensures r == Some(CanStart) <==> !isEmpty && !isComplete && isValid
    ensures r == None <==> !isEmpty && !isComplete && !isValid
  {
    if isEmpty then Some(InvalidGrid)
    else if isComplete then Some(Complete)
    else if isValid then Some(CanStart)
    else None
  }

  /** The status after the rules report a contents change. */
  function OnContentsChange(current: Status, isEmpty: bool, isComplete: bool, isValid: bool): (r: Status)
    ensures r == Started ==> current == Started
    ensures isEmpty ==> r == InvalidGrid
    ensures !isEmpty && isComplete ==> r == Complete
    ensures !isEmpty && !isComplete && isValid ==> r == (if current == Started then Started else CanStart)
    ensures !isEmpty && !isComplete && !isValid ==> r == current
  {
    match RequestedStatus(isEmpty, isComplete, isValid)
    case None => current
    case Some(requested) => NextStatus(current, requested)
  }

  /** `startGame`: requests `Started`, which is granted from every status. */
  function StartGame(current: Status): (r: Status)
    ensures r == Started
  {
    NextStatus(current, Started)
  }

  /** What the status machine reacts to. */
  datatype Event =
    | ContentsChanged(isEmpty: bool, isComplete: bool, isValid: bool)
    | StartRequested

  function Step(current: Status, e: Event): Status {
    match e
    case ContentsChanged(isEmpty, isComplete, isValid) => OnContentsChange(current, isEmpty, isComplete, isValid)
    case StartRequested => StartGame(current)
  }

  /** The status after a sequence of events, from the given status. */
  function Run(current: Status, events: seq<Event>): Status
    decreases |events|
  {
    if |events| == 0 then current else Run(Step(current, events[0]), events[1..])
  }

  /** The machine starts with an invalid grid. */
  lemma InitialStatusIsInvalidGrid()
    ensures InitialStatus == InvalidGrid
    ensures Run(InitialStatus, []) == InvalidGrid
  {
  }

  /** Granting a request twice is granting it once. */
  lemma NextStatusIdempotent(current: Status, requested: Status)
    ensures NextStatus(NextStatus(current, requested), requested) == NextStatus(current, requested)
  {
  }

  /** Once started, the game stays started through any run of contents
      changes in which the grid never becomes empty or complete. */
  lemma {:induction false} StartedIsSticky(events: seq<Event>)
    requires forall k :: 0 <= k < |events| ==>
      events[k].ContentsChanged? && !events[k].isEmpty && !events[k].isComplete
    ensures Run(Started, events) == Started
  {
    if |events| > 0 {
      StartedIsSticky(events[1..]);
    }
  }

  /** Contents changes alone never start the game: a run without a start
      request ends in `Started` only if it began there. */
  lemma {:induction false} OnlyStartRequestsStart(current: Status, events: seq<Event>)
    requires forall k :: 0 <= k < |events| ==> events[k].ContentsChanged?
    ensures Run(current, events) == Started ==> current == Started
    decreases |events|
  {
    if |events| > 0 {
      OnlyStartRequestsStart(Step(current, events[0]), events[1..]);
    }
  }

  /** The scenario of the start test: a valid change, a start request, then
      a valid and an invalid change; the game stays started. */
  lemma StartScenario()
    ensures Run(InitialStatus, [ContentsChanged(false, false, true), StartRequested]) == Started
    ensures Run(InitialStatus, [ContentsChanged(false, false, true), StartRequested,
                                ContentsChanged(false, false, true),
                                ContentsChanged(false, false, false)]) == Started
  {
  }

  /** A valid grid that becomes invalid keeps `CanStart`: the code makes no
      request when the grid is neither empty, complete nor valid. */
  lemma InvalidAfterValidKeepsCanStart()
    ensures Run(InitialStatus, [ContentsChanged(false, false, true), ContentsChanged(false, false, false)]) == CanStart
  {
  }
}
