/** The once-a-minute interval callback. It refreshes the displayed current instant and runs
    the expiry sweep, but the effect that registers it runs only once, at mount, so the sweep
    inside it reads the `currentTime` of the first render for ever. TickAsWritten models that
    callback as it stands; TickIntended sweeps against the instant of the tick itself. */
module Timer {
  import opened TimeMath
  import opened Todos
  import opened Presentation

  /** What one tick leaves behind: the displayed current instant and the task list. */
  datatype Ticked = Ticked(currentTime: Time, todos: seq<Todo>)

  /** One firing as written: currentTime becomes the clock, while the sweep compares against
      the instant captured when the page mounted. */
  function TickAsWritten(todos: seq<Todo>, mountTime: Time, clock: Time): (s: Ticked)
    ensures s.currentTime == clock
    ensures |s.todos| == |todos|
    ensures forall i :: 0 <= i < |todos| ==> SameTask(s.todos[i], todos[i])
    ensures forall i :: 0 <= i < |todos| && todos[i].status != Pending ==> s.todos[i] == todos[i]
    ensures forall i :: 0 <= i < |todos| && todos[i].status == Pending ==>
      s.todos[i].status != Completed && (s.todos[i].status == Expired <==> todos[i].date < mountTime)
  {
    Ticked(clock, ExpireOverdue(todos, mountTime))
  }

  /** As written, a tick applied right after another tick, with no change to the list in
      between, changes no task, whatever the clock says. */
  lemma StaleTicksChangeNothing(todos: seq<Todo>, mountTime: Time, clock1: Time, clock2: Time)
    ensures var first := TickAsWritten(todos, mountTime, clock1);
      TickAsWritten(first.todos, mountTime, clock2).todos == first.todos
  {
    SweepIdempotent(todos, mountTime);
  }

  /** As written: a task due one second after mount is still pending at the tick one minute
      after mount, while its countdown already reads "Expired". */
  lemma StaleTickMissesOverdue()
    ensures var s := TickAsWritten([Todo("t", "Pay bill", Pending, 1000)], 0, 60000);
      && s.todos[0].status == Pending
      && CountdownText(GetCountdown(s.todos[0].date, s.currentTime)) == "Expired"
  {
  }

  /** One firing as intended: the sweep compares against the instant of the tick. */
  function TickIntended(todos: seq<Todo>, clock: Time): (s: Ticked)
    ensures s.currentTime == clock
    ensures |s.todos| == |todos|
    ensures forall i :: 0 <= i < |todos| ==> SameTask(s.todos[i], todos[i])
    ensures forall i :: 0 <= i < |todos| && todos[i].status != Pending ==> s.todos[i] == todos[i]
    ensures forall i :: 0 <= i < |todos| && todos[i].status == Pending ==>
      s.todos[i].status != Completed && (s.todos[i].status == Expired <==> todos[i].date < clock)
    ensures forall t :: t in s.todos && t.status == Pending ==>
      CountdownText(GetCountdown(t.date, s.currentTime)) != "Expired"
  {
    SweepLeavesNoOverdue(todos, clock);
    Ticked(clock, ExpireOverdue(todos, clock))
  }

  /** As intended, the same task is expired by that tick. */
  lemma IntendedTickExpiresOverdue()
    ensures TickIntended([Todo("t", "Pay bill", Pending, 1000)], 60000).todos[0].status == Expired
  {
  }
}
