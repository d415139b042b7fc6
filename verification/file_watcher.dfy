/** The debounce decision of `BookChangeHandler.on_any_event` in
    backend/file_watcher.py: a one-variable automaton over the time of the
    last accepted trigger. Directory events are ignored; a file event less
    than `DEBOUNCE_DELAY` seconds after the last trigger is ignored too;
    any other file event becomes the last trigger and starts one parser run.
    Time is the value `time.time()` returns while the event is handled. */
module FileWatcher {

  /** Seconds to wait before the parser may be started again. */
  const DEBOUNCE_DELAY: real := 10.0

  /** `LAST_TRIGGER_TIME` when the watcher starts. */
  const INITIAL_LAST: real := 0.0

  /** A watchdog event as the handler sees it, with the time it is handled at. */
  datatype Event = Event(isDirectory: bool, time: real)

  /** The module-level state. */
  datatype Watcher = Watcher(lastTrigger: real)

  const Initial := Watcher(INITIAL_LAST)

  /** The handler's answer: the next state and whether a parser run starts. */
  datatype Step = Step(next: Watcher, runsParser: bool)

  /** `on_any_event(event)`. */
  function OnAnyEvent(w: Watcher, e: Event): (s: Step)
    ensures s.runsParser <==> !e.isDirectory && e.time - w.lastTrigger >= DEBOUNCE_DELAY
    ensures s.runsParser ==> s.next.lastTrigger == e.time
    ensures !s.runsParser ==> s.next == w
  {
    if e.isDirectory then Step(w, false)
    else if e.time - w.lastTrigger < DEBOUNCE_DELAY then Step(w, false)
    else Step(Watcher(e.time), true)
  }

  /** Each trigger comes at least `DEBOUNCE_DELAY` after the one before it, the
      first at least that long after `last`. */
  predicate Spaced(last: real, triggers: seq<real>) {
    forall k :: 0 <= k < |triggers| ==> triggers[k] >= Previous(last, triggers, k) + DEBOUNCE_DELAY
  }

  /** The trigger before trigger `k`, or `last` for the first. */
  function Previous(last: real, triggers: seq<real>, k: nat): real
    requires k < |triggers|
  {
    if k == 0 then last else triggers[k - 1]
  }

  /** The handler applied to `events` in turn: the final state and the times
      of the events that started a parser run, in order. */
  function Run(w: Watcher, events: seq<Event>): (r: (Watcher, seq<real>))
    ensures |r.1| <= |events|
    ensures Spaced(w.lastTrigger, r.1)
    ensures r.0.lastTrigger == if |r.1| == 0 then w.lastTrigger else r.1[|r.1| - 1]
    decreases |events|
  {
    if |events| == 0 then (w, [])
    else
      var s := OnAnyEvent(w, events[0]);
      var rest := Run(s.next, events[1..]);
      if s.runsParser then
        SpacedCons(w.lastTrigger, events[0].time, rest.1);
        (rest.0, [events[0].time] + rest.1)
      else
        (rest.0, rest.1)
  }

  /** A trigger far enough after `last` can precede triggers spaced from it. */
  lemma SpacedCons(last: real, t: real, triggers: seq<real>)
    requires t >= last + DEBOUNCE_DELAY && Spaced(t, triggers)
    ensures Spaced(last, [t] + triggers)
  {
    var ts := [t] + triggers;
    forall k | 0 < k < |ts|
      ensures ts[k] >= Previous(last, ts, k) + DEBOUNCE_DELAY
    {
      assert ts[k] == triggers[k - 1];
      assert ts[k - 1] == Previous(t, triggers, k - 1);
    }
  }

  /** Any two parser runs started by a sequence of events lie at least
      `DEBOUNCE_DELAY` apart for each run between them, whatever order the
      event times come in: the window is measured from the last trigger. */
  lemma {:induction false} TriggersApart(last: real, triggers: seq<real>, i: nat, j: nat)
    requires Spaced(last, triggers)
    requires i < j < |triggers|
    ensures triggers[j] - triggers[i] >= (j - i) as real * DEBOUNCE_DELAY
    decreases j - i
  {
    if j > i + 1 {
      TriggersApart(last, triggers, i, j - 1);
    }
  }

  /** Every parser run is started by a file event handled at that time. */
  lemma {:induction false} TriggersAreFileEvents(w: Watcher, events: seq<Event>)
    ensures forall t :: t in Run(w, events).1 ==> exists e :: e in events && !e.isDirectory && e.time == t
    decreases |events|
  {
    if |events| > 0 {
      var s := OnAnyEvent(w, events[0]);
      TriggersAreFileEvents(s.next, events[1..]);
      forall t | t in Run(w, events).1
        ensures exists e :: e in events && !e.isDirectory && e.time == t
      {
        if t in Run(s.next, events[1..]).1 {
          var e :| e in events[1..] && !e.isDirectory && e.time == t;
          assert e in events;
        } else {
          assert events[0] in events;
        }
      }
    }
  }

  /** From the initial state, the first file event handled at ten seconds or
      later starts the parser; one handled earlier does not. */
  lemma FirstFileEvent(t: real)
    ensures OnAnyEvent(Initial, Event(false, t)).runsParser <==> t >= 10.0
  {
  }

  /** Ignored events do not move the window: with a trigger at 100, an event
      at 105 is ignored and one at 110 still starts the parser, although it
      comes only five seconds after the ignored one. */
  lemma WindowFromLastTrigger()
    ensures Run(Watcher(100.0), [Event(false, 105.0), Event(false, 110.0)]).1 == [110.0]
  {
    var events := [Event(false, 105.0), Event(false, 110.0)];
    var w1 := OnAnyEvent(Watcher(100.0), events[0]).next;
    assert w1 == Watcher(100.0);
    assert events[1..] == [Event(false, 110.0)];
    assert Run(w1, events[1..]).1 == [110.0] by {
      assert events[1..][1..] == [];
    }
  }

  /** A directory event never starts the parser and leaves the state alone. */
  lemma DirectoryEventsIgnored(w: Watcher, t: real)
    ensures OnAnyEvent(w, Event(true, t)) == Step(w, false)
  {
  }
}
