/**
  Tab selection (script.js:14, 71-77, 80-113). The page holds the current
  tab and the tiles on show. Clicking the current tab does nothing;
  clicking another one makes it current at once and requests its listing.
  A listing that arrives is rendered under whatever tab is current at that
  moment: the script has no check that the answer belongs to that tab.
 */
module Tabs {
  import opened Options
  import Resolver
  import Gallery

  /** The tab shown first (script.js:14). */
  const DefaultTab: string := "sport"

  /** The global `currentTab` (script.js:14) and the tiles in the `.gallery` element (script.js:48-49, 66). */
  datatype State = State(currentTab: string, gallery: seq<Gallery.Item>)

  /** A state together with the listing request it issued, if any. */
  datatype Clicked = Clicked(state: State, request: Option<string>)

  /** Page load: the default tab is current, nothing is drawn yet, and its listing is requested (script.js:71-74). */
  function Load(): (c: Clicked)
    ensures c.state == State(DefaultTab, [])
    ensures c.request == Some(DefaultTab)
  {
    Clicked(State(DefaultTab, []), Some(DefaultTab))
  }

  /**
    The tab click listeners are attached only after the first listing is drawn
    (script.js:73-76), so that listing is always drawn under the default tab.
   */
  lemma LoadThenArrive(listing: Resolver.Listing)
    ensures Arrive(Load().state, listing) == State(DefaultTab, Gallery.Render(Resolver.Resolve(listing), DefaultTab))
  {
  }

  /**
    A click on `tab` (script.js:86-109). The current tab changes before
    the listing is awaited; the tiles on show stay until it arrives.
   */
  function Click(s: State, tab: string): (c: Clicked)
    ensures tab == s.currentTab ==> c == Clicked(s, None)
    ensures tab != s.currentTab ==> c.state == s.(currentTab := tab) && c.request == Some(tab)
  {
    if tab == s.currentTab then Clicked(s, None)
    else Clicked(State(tab, s.gallery), Some(tab))
  }

  /**
    A listing arrives (script.js:109-110, and 73-74 on page load): it is
    resolved and drawn under the tab that is current now.
   */
  function Arrive(s: State, listing: Resolver.Listing): (t: State)
    ensures t.currentTab == s.currentTab
    ensures Gallery.Filenames(t.gallery) == Resolver.Resolve(listing)
    ensures forall i :: 0 <= i < |t.gallery| ==>
              t.gallery[i].src == Gallery.ImagePath(s.currentTab, t.gallery[i].filename)
    ensures forall i :: 0 <= i < |t.gallery| ==> t.gallery[i].size == Gallery.SizeOf(t.gallery[i].filename)
  {
    Gallery.RenderKeepsNames(Resolver.Resolve(listing), s.currentTab);
    s.(gallery := Gallery.Render(Resolver.Resolve(listing), s.currentTab))
  }

  /** A listing request goes out exactly when the click changes the tab, and it is for the new current tab. */
  lemma RequestIffTabChanges(s: State, tab: string)
    ensures Click(s, tab).request.Some? <==> tab != s.currentTab
    ensures Click(s, tab).request.Some? ==> Click(s, tab).request.value == Click(s, tab).state.currentTab
    ensures Click(s, tab).state.currentTab == tab
  {
  }

  /** Clicking the same tab twice is clicking it once: the second click changes nothing and fetches nothing. */
  lemma ClickIdempotent(s: State, tab: string)
    ensures Click(Click(s, tab).state, tab) == Clicked(Click(s, tab).state, None)
  {
  }

  /** A switch whose listing arrives before any other click shows that tab's images under that tab. */
  lemma SwitchThenArrive(s: State, tab: string, listing: Resolver.Listing)
    requires tab != s.currentTab
    ensures Arrive(Click(s, tab).state, listing) == State(tab, Gallery.Render(Resolver.Resolve(listing), tab))
  {
  }

  /** Only the latest arrival is visible; each replaces the whole gallery. */
  lemma LastArrivalWins(s: State, first: Resolver.Listing, second: Resolver.Listing)
    ensures Arrive(Arrive(s, first), second) == Arrive(s, second)
  {
  }

  /**
    Nothing checks that an arriving listing was requested for the tab that
    is now current (script.js:110 reads the global `currentTab`): after
    clicks on `a` and then `b`, the listing fetched for `a` arriving late is
    drawn under `b`, with `b`'s folder in every image URL.
   */
  lemma LateArrivalDrawnUnderCurrentTab(s: State, a: string, b: string, forA: Resolver.Listing)
    requires a != s.currentTab && b != a
    ensures Click(s, a).request == Some(a) && Click(Click(s, a).state, b).request == Some(b)
    ensures Arrive(Click(Click(s, a).state, b).state, forA) == State(b, Gallery.Render(Resolver.Resolve(forA), b))
  {
  }

  /** What can happen to the page: a tab click, or the arrival of a requested listing. */
  datatype Event = TabClicked(tab: string) | ListingArrived(listing: Resolver.Listing)

  /** The state after some events, with the listing requests they issued in order. */
  datatype Trace = Trace(state: State, requests: seq<string>)

  /** Consecutive requests never repeat a tab: two in a row for the same tab would need a click on the current tab. */
  predicate NoRepeatedRequest(start: string, requests: seq<string>)
  {
    && (|requests| > 0 ==> requests[0] != start)
    && forall i :: 0 < i < |requests| ==> requests[i] != requests[i - 1]
  }

  /**
    Handles `events` in the given order. Any order is accepted, including
    ones the page cannot produce, such as a click before the first arrival.
   */
  function Run(s: State, events: seq<Event>): (t: Trace)
    ensures NoRepeatedRequest(s.currentTab, t.requests)
    ensures |t.requests| == 0 ==> t.state.currentTab == s.currentTab
    ensures |t.requests| > 0 ==> t.requests[|t.requests| - 1] == t.state.currentTab
    ensures |t.requests| <= |events|
    decreases |events|
  {
    if |events| == 0 then Trace(s, [])
    else
      match events[0]
      case TabClicked(tab) =>
        var c := Click(s, tab);
        var rest := Run(c.state, events[1..]);
        if c.request.Some? then
          var requests := [tab] + rest.requests;
          assert forall i :: 0 < i < |requests| ==> requests[i] == rest.requests[i - 1];
          Trace(rest.state, requests)
        else rest
      case ListingArrived(listing) =>
        var next := Arrive(s, listing);
        assert next.currentTab == s.currentTab;
        Run(next, events[1..])
  }

  /** The tab clicked last among `events`, or `start` when there is no click: read from the end. */
  function LastClicked(start: string, events: seq<Event>): string
    decreases |events|
  {
    if |events| == 0 then start
    else if events[|events| - 1].TabClicked? then events[|events| - 1].tab
    else LastClicked(start, events[..|events| - 1])
  }

  /** The tab current after one event. */
  function TabAfter(current: string, e: Event): string
  {
    if e.TabClicked? then e.tab else current
  }

  /** Reading from the end agrees with consuming the first event and reading the rest. */
  lemma {:induction false} LastClickedFirst(start: string, e: Event, rest: seq<Event>)
    ensures LastClicked(start, [e] + rest) == LastClicked(TabAfter(start, e), rest)
    decreases |rest|
  {
    var all := [e] + rest;
    if |rest| > 0 {
      assert all[..|all| - 1] == [e] + rest[..|rest| - 1];
      assert all[|all| - 1] == rest[|rest| - 1];
      LastClickedFirst(start, e, rest[..|rest| - 1]);
    } else {
      assert all[..|all| - 1] == [];
    }
  }

  /** `LastClickedFirst` for a non-empty sequence split at its head. */
  lemma LastClickedHead(start: string, events: seq<Event>)
    requires |events| > 0
    ensures LastClicked(start, events) == LastClicked(TabAfter(start, events[0]), events[1..])
  {
    assert events == [events[0]] + events[1..];
    LastClickedFirst(start, events[0], events[1..]);
  }

  /** The state after one event. */
  function StateAfter(s: State, e: Event): (t: State)
    ensures t.currentTab == TabAfter(s.currentTab, e)
  {
    match e
    case TabClicked(tab) => Click(s, tab).state
    case ListingArrived(listing) => Arrive(s, listing)
  }

  /** The state a run ends in is the state the rest of the run ends in after the first event. */
  lemma RunFirst(s: State, events: seq<Event>)
    requires |events| > 0
    ensures Run(s, events).state == Run(StateAfter(s, events[0]), events[1..]).state
  {
  }

  /** After any events the current tab is the one clicked last, or the starting tab if none was clicked. */
  lemma {:induction false} RunEndsOnLastClicked(s: State, events: seq<Event>)
    ensures Run(s, events).state.currentTab == LastClicked(s.currentTab, events)
    decreases |events|
  {
    if |events| > 0 {
      LastClickedHead(s.currentTab, events);
      RunFirst(s, events);
      RunEndsOnLastClicked(StateAfter(s, events[0]), events[1..]);
    }
  }

  /** The request one event issues when `current` is the current tab: a click on another tab requests it. */
  function RequestOf(current: string, e: Event): seq<string>
  {
    if e.TabClicked? && e.tab != current then [e.tab] else []
  }

  /**
    The listings requested by `events`, read from the end: the last event
    adds a request when it is a click on a tab other than the one clicked
    last before it.
   */
  function Requested(start: string, events: seq<Event>): seq<string>
    decreases |events|
  {
    if |events| == 0 then []
    else
      var init := events[..|events| - 1];
      Requested(start, init) + RequestOf(LastClicked(start, init), events[|events| - 1])
  }

  /** Reading the requests from the end agrees with taking the first event's request and reading the rest. */
  lemma {:induction false} RequestedFirst(start: string, e: Event, rest: seq<Event>)
    ensures Requested(start, [e] + rest) == RequestOf(start, e) + Requested(TabAfter(start, e), rest)
    decreases |rest|
  {
    var all := [e] + rest;
    if |rest| > 0 {
      var init := rest[..|rest| - 1];
      assert all[..|all| - 1] == [e] + init;
      assert all[|all| - 1] == rest[|rest| - 1];
      RequestedFirst(start, e, init);
      LastClickedFirst(start, e, init);
    } else {
      assert all[..|all| - 1] == [];
    }
  }

  /** `RequestedFirst` for a non-empty sequence split at its head. */
  lemma RequestedHead(start: string, events: seq<Event>)
    requires |events| > 0
    ensures Requested(start, events) == RequestOf(start, events[0]) + Requested(TabAfter(start, events[0]), events[1..])
  {
    assert events == [events[0]] + events[1..];
    RequestedFirst(start, events[0], events[1..]);
  }

  /** The requests a run issues start with those of its first event. */
  lemma RunFirstRequests(s: State, events: seq<Event>)
    requires |events| > 0
    ensures Run(s, events).requests == RequestOf(s.currentTab, events[0]) + Run(StateAfter(s, events[0]), events[1..]).requests
  {
  }

  /** A run issues exactly one request per click that changes the tab, in click order, for the tab clicked. */
  lemma {:induction false} RunRequested(s: State, events: seq<Event>)
    ensures Run(s, events).requests == Requested(s.currentTab, events)
    decreases |events|
  {
    if |events| > 0 {
      RequestedHead(s.currentTab, events);
      RunFirstRequests(s, events);
      RunRequested(StateAfter(s, events[0]), events[1..]);
    }
  }

  /** A run of events that are all arrivals issues no request and keeps the tab; the last arrival is what shows. */
  lemma {:induction false} ArrivalsOnly(s: State, events: seq<Event>)
    requires |events| > 0 && forall i :: 0 <= i < |events| ==> events[i].ListingArrived?
    ensures Run(s, events).requests == []
    ensures Run(s, events) == Trace(Arrive(s, events[|events| - 1].listing), [])
    decreases |events|
  {
    if |events| > 1 {
      ArrivalsOnly(Arrive(s, events[0].listing), events[1..]);
    }
  }
}
