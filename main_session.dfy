/**
 * The page controller's request guard.
 *
 * Every dropped image starts a scan request: a module-level counter is
 * pre-incremented and captured, the error banner is hidden, the results
 * area shows a skeleton and the scan animation starts.  When the scan
 * settles, its outcome is applied only if no newer request has started
 * since; the animation's stop function runs under the same condition.
 *
 * `Page` and the functions `Begin` and `Settle` say what the page looks
 * like after each half of a request; `Controller` is the imperative page
 * state whose methods are proved to follow them.  Concurrency is modelled
 * as an arbitrary sequence of `Request` and `Completion` events.
 */
module App {

  import opened BarcodeScanner

  /** The banner text when every attempt found nothing. */
  const NotFoundMessage: string := "バーコードを検出できませんでした。より鮮明な画像をお試しください。"

  /** The banner text when the scan threw something that is not an `Error`. */
  const FallbackMessage: string := "スキャン中にエラーが発生しました"

  /** What the results area shows. */
  datatype Results = Hidden | Skeleton | Card(result: ScanResult)

  /** The error banner: hidden with empty text, or shown with a message. */
  datatype Banner = NoError | ErrorShown(message: string)

  /**
   * The page state a request touches: the request counter, the results
   * area, the banner, whether the scanning classes are on, and whether the
   * stop function captured by the newest request removes them (it does
   * nothing when that request started under reduced motion).
   */
  datatype Page = Page(generation: nat, results: Results, banner: Banner, scanning: bool, stopClears: bool)

  /** The page before any request. */
  const Initial: Page := Page(0, Hidden, NoError, false, false)

  /**
   * What a scan that threw puts in the banner: an `Error`'s own message,
   * the fixed fallback text for anything else.
   */
  function ErrorMessage(thrown: Thrown): (m: string)
    ensures thrown.ErrorValue? ==> m == thrown.message
    ensures thrown.OtherValue? ==> m == FallbackMessage
  {
    match thrown
    case ErrorValue(message) => message
    case OtherValue => FallbackMessage
  }

  /**
   * The first half of `handleImageReady`, up to the awaited scan.  Whatever
   * is in flight, a request clears the banner, shows the skeleton and
   * captures a counter value one above the previous one.
   */
  function Begin(p: Page, reducedMotion: bool): (q: Page)
    ensures q.generation == p.generation + 1 && q.results == Skeleton && q.banner == NoError
    ensures !reducedMotion ==> q.scanning
  {
    Page(p.generation + 1, Skeleton, NoError, p.scanning || !reducedMotion, !reducedMotion)
  }

  /**
   * The second half of `handleImageReady`, for the request that captured
   * `id`.  The completion of the current request routes its outcome: a
   * result to the card, `null` to a cleared area and the not-found banner, a
   * throw to a cleared area and the error's message.  It runs the newest
   * request's stop, which clears the scanning classes unless that request
   * started under reduced motion, and leaves the counter alone.  Any other
   * completion changes nothing.
   */
  function Settle(p: Page, id: nat, outcome: Outcome): (q: Page)
    ensures id != p.generation ==> q == p
    ensures id == p.generation ==>
      q.generation == p.generation &&
      q.scanning == (p.scanning && !p.stopClears) &&
      (outcome.Found? ==> q.results == Card(outcome.result) && q.banner == p.banner) &&
      (outcome.NotFound? ==> q.results == Hidden && q.banner == ErrorShown(NotFoundMessage)) &&
      (outcome.Failed? ==> q.results == Hidden && q.banner == ErrorShown(ErrorMessage(outcome.thrown)))
  {
    if id != p.generation then p
    else
      var scanning := p.scanning && !p.stopClears;
      match outcome
      case Found(result) => p.(results := Card(result), scanning := scanning)
      case NotFound => p.(results := Hidden, banner := ErrorShown(NotFoundMessage), scanning := scanning)
      case Failed(thrown) => p.(results := Hidden, banner := ErrorShown(ErrorMessage(thrown)), scanning := scanning)
  }

  /** Something that happens to the page: a new request, or a scan settling. */
  datatype Event = Request(reducedMotion: bool) | Completion(id: nat, outcome: Outcome)

  /**
   * One event: a request raises the counter by one; a completion leaves it
   * alone, and changes nothing at all unless it carries the current value.
   */
  function Step(p: Page, e: Event): (q: Page)
    ensures q.generation == p.generation + (if e.Request? then 1 else 0)
    ensures e.Completion? && e.id != p.generation ==> q == p
  {
    match e
    case Request(reducedMotion) => Begin(p, reducedMotion)
    case Completion(id, outcome) => Settle(p, id, outcome)
  }

  /**
   * The page after a sequence of events, oldest first.  The counter goes up
   * by exactly one per request among them and never goes down.
   */
  function Run(p: Page, events: seq<Event>): (q: Page)
    ensures q.generation == p.generation + Requests(events)
    decreases |events|
  {
    if events == [] then p else Run(Step(p, events[0]), events[1..])
  }

  /** How many requests a sequence of events starts. */
  function Requests(events: seq<Event>): nat {
    if events == [] then 0 else (if events[0].Request? then 1 else 0) + Requests(events[1..])
  }

  // ---------------------------------------------------------------------
  // Properties
  // ---------------------------------------------------------------------

  /** Running two sequences of events one after the other. */
  lemma {:induction false} RunAppend(p: Page, first: seq<Event>, second: seq<Event>)
    ensures Run(p, first + second) == Run(Run(p, first), second)
    decreases |first|
  {
    if first == [] {
      assert first + second == second;
    } else {
      assert (first + second)[1..] == first[1..] + second;
      RunAppend(Step(p, first[0]), first[1..], second);
    }
  }

  /**
   * A request that has been superseded stays superseded: whatever happens
   * next, its completion changes nothing.
   */
  lemma SupersededCompletionIgnored(p: Page, events: seq<Event>, id: nat, outcome: Outcome)
    requires id < p.generation
    ensures Settle(Run(p, events), id, outcome) == Run(p, events)
  {
  }

  /** Completions of requests other than the current one leave the page as it is. */
  lemma {:induction false} StaleCompletionsChangeNothing(p: Page, events: seq<Event>)
    requires forall k :: 0 <= k < |events| ==> events[k].Completion? && events[k].id != p.generation
    ensures Run(p, events) == p
    decreases |events|
  {
    if events != [] {
      StaleCompletionsChangeNothing(Step(p, events[0]), events[1..]);
    }
  }

  /**
   * Request A superseded by request B: whenever A's scan settles, the page
   * ends up showing B's outcome, as if A had never been made.
   */
  lemma LatestRequestWins(p: Page, motionA: bool, motionB: bool, a: Outcome, b: Outcome, aFirst: bool)
    ensures var idA, idB := p.generation + 1, p.generation + 2;
      var started := Run(p, [Request(motionA), Request(motionB)]);
      var events := if aFirst then [Completion(idA, a), Completion(idB, b)] else [Completion(idB, b), Completion(idA, a)];
      Run(started, events) == Settle(started, idB, b)
  {
    var idA, idB := p.generation + 1, p.generation + 2;
    RunTwo(p, Request(motionA), Request(motionB));
    var started := Begin(Begin(p, motionA), motionB);
    if aFirst {
      RunTwo(started, Completion(idA, a), Completion(idB, b));
    } else {
      RunTwo(started, Completion(idB, b), Completion(idA, a));
    }
  }

  /** Running two events is stepping twice. */
  lemma RunTwo(p: Page, first: Event, second: Event)
    ensures Run(p, [first, second]) == Step(Step(p, first), second)
  {
    var q := Step(p, first);
    assert [first, second][1..] == [second];
    assert Run(p, [first, second]) == Run(q, [second]);
    assert [second][1..] == [];
    assert Run(q, [second]) == Run(Step(q, second), []);
  }

  /**
   * A full-motion request superseded by a reduced-motion one: only the
   * newest request's stop function runs, and it does nothing, so the
   * scanning classes the first request added stay on the page.
   */
  lemma ReducedMotionLeavesAnimation(p: Page, a: Outcome, b: Outcome)
    ensures Run(p, [Request(false), Request(true), Completion(p.generation + 1, a), Completion(p.generation + 2, b)]).scanning
  {
    var requests := [Request(false), Request(true)];
    var completions := [Completion(p.generation + 1, a), Completion(p.generation + 2, b)];
    assert requests + completions == [Request(false), Request(true), Completion(p.generation + 1, a), Completion(p.generation + 2, b)];
    RunAppend(p, requests, completions);
    RunTwo(p, Request(false), Request(true));
    RunTwo(Begin(Begin(p, false), true), completions[0], completions[1]);
  }

  // ---------------------------------------------------------------------
  // The controller
  // ---------------------------------------------------------------------

  /** The module state of the page controller and the DOM state it drives. */
  class Controller {
    /** `scanGeneration`. */
    var scanGeneration: nat
    var results: Results
    var banner: Banner
    var scanning: bool
    var stopClears: bool

    /** The page this controller shows. */
    function Snapshot(): Page
      reads this
    {
      Page(scanGeneration, results, banner, scanning, stopClears)
    }

    constructor ()
      ensures Snapshot() == Initial
    {
      scanGeneration := 0;
      results := Hidden;
      banner := NoError;
      scanning := false;
      stopClears := false;
    }

    /** `showError`. */
    method ShowError(message: string)
      modifies this
      ensures Snapshot() == old(Snapshot()).(banner := ErrorShown(message))
    {
      banner := ErrorShown(message);
    }

    /** `hideError`. */
    method HideError()
      modifies this
      ensures Snapshot() == old(Snapshot()).(banner := NoError)
    {
      banner := NoError;
    }

    /**
     * `handleImageReady` up to the awaited scan: pre-increment and capture
     * the counter, hide the banner, show the skeleton, start the animation
     * (a no-op under reduced motion) and keep its stop function.
     */
    method Start(reducedMotion: bool) returns (currentGeneration: nat)
      modifies this
      ensures Snapshot() == Begin(old(Snapshot()), reducedMotion)
      ensures currentGeneration == scanGeneration == old(scanGeneration) + 1
    {
      scanGeneration := scanGeneration + 1;
      currentGeneration := scanGeneration;
      HideError();
      results := Skeleton;
      if !reducedMotion {
        scanning := true;
      }
      stopClears := !reducedMotion;
    }

    /**
     * `handleImageReady` after the awaited scan: nothing happens unless the
     * captured counter is still current; then the outcome is shown and the
     * stop function runs (a no-op under reduced motion).
     */
    method Complete(currentGeneration: nat, outcome: Outcome)
      modifies this
      ensures Snapshot() == Settle(old(Snapshot()), currentGeneration, outcome)
      ensures currentGeneration != old(scanGeneration) ==> unchanged(this)
    {
      if currentGeneration != scanGeneration {
        return;
      }
      match outcome {
        case Found(result) =>
          results := Card(result);
        case NotFound =>
          results := Hidden;
          ShowError(NotFoundMessage);
        case Failed(thrown) =>
          results := Hidden;
          ShowError(ErrorMessage(thrown));
      }
      if stopClears {
        scanning := false;
      }
    }
  }

  /**
   * Two images dropped in quick succession, their scans settling in either
   * order: the page shows the second one's outcome, the counter is 2 and
   * the animation is off.
   */
  method DropTwice(a: Outcome, b: Outcome, aFirst: bool) returns (page: Page)
    ensures page.generation == 2 && !page.scanning
    ensures b.Found? ==> page.results == Card(b.result) && page.banner == NoError
    ensures b.NotFound? ==> page.results == Hidden && page.banner == ErrorShown(NotFoundMessage)
    ensures b.Failed? ==> page.results == Hidden && page.banner == ErrorShown(ErrorMessage(b.thrown))
  {
    var controller := new Controller();
    var first := controller.Start(false);
    var second := controller.Start(false);
    if aFirst {
      controller.Complete(first, a);
      controller.Complete(second, b);
    } else {
      controller.Complete(second, b);
      controller.Complete(first, a);
    }
    page := controller.Snapshot();
  }
}
