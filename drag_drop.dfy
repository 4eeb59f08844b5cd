/**
 * The drop area's highlight flag (`dragActive`): the drag events the area
 * listens to switch it on and off. What the drop handler does with the
 * dropped file is not part of this module.
 */
module DragDrop {
  import opened Wrappers

  /** The flag value an event type decides, or `None` for an event type the handler ignores. */
  function Decision(eventType: string): (r: Option<bool>)
    ensures r == Some(true) <==> eventType == "dragenter" || eventType == "dragover"
    ensures r == Some(false) <==> eventType == "dragleave" || eventType == "drop"
  {
    if eventType == "dragenter" || eventType == "dragover" then Some(true)
    else if eventType == "dragleave" || eventType == "drop" then Some(false)
    else None
  }

  /** The flag after one event handled by `handleDrag`. */
  function AfterEvent(active: bool, eventType: string): bool {
    Decision(eventType).GetOr(active)
  }

  /** The flag after `handleDrag` has handled `events` in order, starting from `active`. */
  function AfterEvents(active: bool, events: seq<string>): bool
    decreases |events|
  {
    if events == [] then active else AfterEvents(AfterEvent(active, events[0]), events[1..])
  }

  /** The decision of the last event that decides one, if any: read from the end. */
  function LastDecision(events: seq<string>): Option<bool>
    decreases |events|
  {
    if events == [] then None
    else match Decision(events[|events| - 1])
      case Some(b) => Some(b)
      case None => LastDecision(events[..|events| - 1])
  }

  /** The component's drag state. */
  class DropArea {
    var dragActive: bool

    /** `useState(false)`: nothing is highlighted before the first drag. */
    constructor ()
      ensures !dragActive
    {
      dragActive := false;
    }

    /** `handleDrag`: the enter and over events switch the flag on, leave and drop switch it off. */
    method HandleDrag(eventType: string)
      modifies this
      ensures dragActive == AfterEvent(old(dragActive), eventType)
    {
      if eventType == "dragenter" || eventType == "dragover" {
        dragActive := true;
      } else if eventType == "dragleave" || eventType == "drop" {
        dragActive := false;
      }
    }

    /** `handleDrop`: whatever came before, the highlight is off after a drop. */
    method HandleDrop()
      modifies this
      ensures !dragActive
    {
      dragActive := false;
    }
  }

  /** Handling one more event applies that event to the flag reached so far. */
  lemma {:induction false} AfterEventsSnoc(active: bool, events: seq<string>, e: string)
    ensures AfterEvents(active, events + [e]) == AfterEvent(AfterEvents(active, events), e)
    decreases |events|
  {
    if events == [] {
      assert [] + [e] == [e];
    } else {
      assert (events + [e])[1..] == events[1..] + [e];
      AfterEventsSnoc(AfterEvent(active, events[0]), events[1..], e);
    }
  }

  /**
   * After any sequence of events the flag is what the last deciding event
   * set, or the starting value when no event decided anything.
   */
  lemma {:induction false} FlagFollowsLastDecision(active: bool, events: seq<string>)
    ensures AfterEvents(active, events) == LastDecision(events).GetOr(active)
    decreases |events|
  {
    if events != [] {
      var n := |events| - 1;
      FlagFollowsLastDecision(active, events[..n]);
      AfterEventsSnoc(active, events[..n], events[n]);
      assert events[..n] + [events[n]] == events;
    }
  }

  /** Ending with a leave or a drop always leaves the area un-highlighted, whatever came before. */
  lemma EndsOffAfterLeaveOrDrop(active: bool, events: seq<string>, last: string)
    requires last == "dragleave" || last == "drop"
    ensures !AfterEvents(active, events + [last])
  {
    AfterEventsSnoc(active, events, last);
  }

  /** Ending with an enter or an over event always leaves the area highlighted, whatever came before. */
  lemma EndsOnAfterEnterOrOver(active: bool, events: seq<string>, last: string)
    requires last == "dragenter" || last == "dragover"
    ensures AfterEvents(active, events + [last])
  {
    AfterEventsSnoc(active, events, last);
  }

  /** An event type the handler does not recognise leaves the flag where the earlier events put it. */
  lemma OtherEventKeepsFlag(active: bool, events: seq<string>, last: string)
    requires last != "dragenter" && last != "dragover" && last != "dragleave" && last != "drop"
    ensures AfterEvents(active, events + [last]) == AfterEvents(active, events)
  {
    AfterEventsSnoc(active, events, last);
  }
}
