/**
 The `Autocomplete` component's one piece of state, `showAutocompleteList`:
 focusing the input opens the list; while the list is open a window click
 listener closes it on any click landing outside both the list and the
 input; while it is closed no listener is installed. The list element is
 hidden exactly when the state is closed, and always holds the same three
 placeholder items.
 */
module Autocomplete {

  /** Where a window click lands: inside the list element, inside the input
      element (each including its descendants), or anywhere else. */
  datatype Target = InList | InInput | Outside

  /** The events the component reacts to. */
  datatype Event = Focus | Click(target: Target)

  /** What the component renders for the list. */
  datatype ListView = ListView(hidden: bool, items: seq<string>)

  /** The state on mount: the list is closed. */
  const Initial: bool := false

  /** The three placeholder items the list always holds. */
  const MockItems: seq<string> := ["Mock 1", "Mock 2", "Mock 3"]

  /** The effect installs the window click listener only while the list is shown. */
  predicate ListenerInstalled(show: bool) {
    show
  }

  /** The click lands inside the list or inside the input. */
  predicate InsideWidget(t: Target) {
    t == InList || t == InInput
  }

  /** The window click listener: a click inside the widget returns without
      touching the state; any other click closes the list. */
  function OnWindowClick(show: bool, t: Target): (r: bool)
    ensures r ==> show
    ensures InsideWidget(t) ==> r == show
    ensures !InsideWidget(t) ==> !r
  {
    if InsideWidget(t) then show else false
  }

  /** One transition of `showAutocompleteList`. */
  function Step(show: bool, e: Event): (r: bool)
    ensures e == Focus ==> r
    ensures e.Click? ==> (r <==> show && e.target != Outside)
  {
    match e
    case Focus => true
    case Click(t) => if ListenerInstalled(show) then OnWindowClick(show, t) else show
  }

  /** The state after a sequence of events, applied in order. */
  function Run(show: bool, events: seq<Event>): bool
    decreases |events|
  {
    if events == [] then show
    else Step(Run(show, events[..|events| - 1]), events[|events| - 1])
  }

  /** The list as rendered for a state. */
  function Render(show: bool): (v: ListView)
    ensures v.hidden <==> !show
    ensures v.items == ["Mock 1", "Mock 2", "Mock 3"]
  {
    ListView(!show, MockItems)
  }

  /** A reference description of the visible state after `events` from
      mount: some focus happened, and no click outside the widget came after
      the last one. */
  predicate OpenAfter(events: seq<Event>) {
    exists i :: 0 <= i < |events| && events[i] == Focus
      && forall j :: i < j < |events| ==> events[j] != Click(Outside)
  }

  /** The state machine agrees with the reference description on every
      sequence of events, in both directions. */
  lemma {:induction false} RunMatchesReference(events: seq<Event>)
    ensures Run(Initial, events) <==> OpenAfter(events)
    decreases |events|
  {
    if events != [] {
      var n := |events| - 1;
      var pre, e := events[..n], events[n];
      RunMatchesReference(pre);
      match e
      case Focus =>
        assert OpenAfter(events) by {
          assert events[n] == Focus;
        }
      case Click(t) =>
        if t == Outside {
          if OpenAfter(events) {
            var i :| 0 <= i < |events| && events[i] == Focus
              && forall j :: i < j < |events| ==> events[j] != Click(Outside);
            assert false;
          }
        } else {
          if OpenAfter(events) {
            var i :| 0 <= i < |events| && events[i] == Focus
              && forall j :: i < j < |events| ==> events[j] != Click(Outside);
            assert pre[i] == Focus;
            assert OpenAfter(pre);
          }
          if OpenAfter(pre) {
            var i :| 0 <= i < |pre| && pre[i] == Focus
              && forall j :: i < j < |pre| ==> pre[j] != Click(Outside);
            assert events[i] == Focus;
            assert OpenAfter(events);
          }
        }
    }
  }

  /** The rendered list is hidden after a sequence of events from mount
      exactly when the reference description says the list is closed: no
      focus yet, or an outside click after the last focus. */
  lemma HiddenAfter(events: seq<Event>)
    ensures Render(Run(Initial, events)).hidden <==> !OpenAfter(events)
  {
    RunMatchesReference(events);
  }

  /** On mount the list is hidden, and in every state it holds the same
      three placeholder items. */
  lemma MountedViewAndItems(show: bool)
    ensures Render(Run(Initial, [])).hidden
    ensures Render(show).items == Render(Initial).items == ["Mock 1", "Mock 2", "Mock 3"]
  {
  }

  /** Focus opens the list from either state, and focusing again changes
      nothing. */
  lemma FocusOpensIdempotently(show: bool)
    ensures Step(show, Focus)
    ensures Step(Step(show, Focus), Focus) == Step(show, Focus)
    ensures !Render(Step(show, Focus)).hidden
  {
  }

  /** While the list is open, a click inside the list or the input keeps it
      open, and a click anywhere else closes it. */
  lemma OpenListClicks(t: Target)
    ensures Step(true, Click(t)) <==> InsideWidget(t)
  {
  }

  /** While the list is closed no listener is installed, so no click changes
      the state. */
  lemma ClosedListIgnoresClicks(t: Target)
    ensures Step(false, Click(t)) == false
  {
  }

  /** Clicking the input focuses it and then delivers the click to the
      input; whether or not the listener is installed by then, the list ends
      up open. */
  lemma ClickOnInputOpens(show: bool)
    ensures Step(Step(show, Focus), Click(InInput)) == Step(show, Focus)
  {
  }

  /** The component test: click the input, then the list (the list stays
      shown), then a button outside (the list is hidden). */
  lemma OpenThenOutsideClickScenario()
    ensures !Render(Run(Initial, [Focus, Click(InInput)])).hidden
    ensures !Render(Run(Initial, [Focus, Click(InInput), Click(InList)])).hidden
    ensures Render(Run(Initial, [Focus, Click(InInput), Click(InList), Click(Outside)])).hidden
  {
    var evs := [Focus, Click(InInput), Click(InList), Click(Outside)];
    assert evs[..3][..2] == [Focus, Click(InInput)];
    assert evs[..3] == [Focus, Click(InInput), Click(InList)];
    assert [Focus, Click(InInput)][..1] == [Focus];
    assert [Focus][..0] == [];
  }
}
