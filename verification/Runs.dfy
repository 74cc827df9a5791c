/** Runs of a transition relation, and runs in which restarts come between the steps. */
module Runs {
  ghost predicate IsRunOf<S(!new), E(!new)>(first: S, next: (S, E, S) -> bool, states: seq<S>, events: seq<E>) {
    && |states| == |events| + 1 && states[0] == first
    && (forall i | 0 <= i < |events| :: next(states[i], events[i], states[i + 1]))
  }

  lemma PrefixRun<S(!new), E(!new)>(first: S, next: (S, E, S) -> bool, states: seq<S>, events: seq<E>)
    requires events != [] && IsRunOf(first, next, states, events)
    ensures var n := |events| - 1;
            IsRunOf(first, next, states[..n + 1], events[..n]) && next(states[n], events[n], states[n + 1])
  {
  }

  lemma RunMore<S(!new), E(!new)>(first: S, next: (S, E, S) -> bool, states: seq<S>, events: seq<E>, e: E, t: S)
    requires IsRunOf(first, next, states, events) && next(states[|events|], e, t)
    ensures IsRunOf(first, next, states + [t], events + [e])
  {
    var longer, all := states + [t], events + [e];
    forall i | 0 <= i < |all| ensures next(longer[i], all[i], longer[i + 1]) {
      if i < |events| {
        assert next(states[i], events[i], states[i + 1]);
      }
    }
  }

  /** An event of the operator, or a restart: a checkpoint restored into a fresh state. */
  datatype Interrupted<+E> = Go(event: E) | Restart

  /** The same events without the restarts. */
  function Uninterrupted<E>(events: seq<Interrupted<E>>): seq<E> {
    if events == [] then []
    else
      var last := events[|events| - 1];
      Uninterrupted(events[..|events| - 1]) + if last.Go? then [last.event] else []
  }

  /** Over the states behind `image` that are `good`, an event is a step of `low` and a restart is
      nothing. */
  ghost predicate Simulates<S(!new), T(!new), E(!new)>(next: (S, Interrupted<E>, S) -> bool, low: (T, E, T) -> bool,
                                                       image: T -> S, good: T -> bool) {
    forall t: T, e: Interrupted<E>, s: S | good(t) && next(image(t), e, s) :: HasStep(low, image, good, t, e, s)
  }

  ghost predicate HasStep<S(!new), T(!new), E>(low: (T, E, T) -> bool, image: T -> S, good: T -> bool, t: T,
                                               e: Interrupted<E>, s: S) {
    match e
    case Restart => s == image(t)
    case Go(event) => exists u: T :: good(u) && low(t, event, u) && s == image(u)
  }

  /** A run with restarts is the image of a run without. */
  lemma {:induction false} RunBehind<S(!new), T(!new), E(!new)>(
    first: T, next: (S, Interrupted<E>, S) -> bool, low: (T, E, T) -> bool, image: T -> S, good: T -> bool,
    states: seq<S>, events: seq<Interrupted<E>>) returns (behind: seq<T>)
    requires Simulates(next, low, image, good) && good(first) && IsRunOf(image(first), next, states, events)
    ensures IsRunOf(first, low, behind, Uninterrupted(events))
    ensures good(behind[|Uninterrupted(events)|]) && states[|events|] == image(behind[|Uninterrupted(events)|])
    decreases |events|
  {
    if events == [] {
      behind := [first];
    } else {
      var n := |events| - 1;
      PrefixRun(image(first), next, states, events);
      behind := RunBehind(first, next, low, image, good, states[..n + 1], events[..n]);
      var straight := Uninterrupted(events[..n]);
      var t := behind[|straight|];
      assert next(image(t), events[n], states[n + 1]);
      assert HasStep(low, image, good, t, events[n], states[n + 1]);
      if events[n].Go? {
        var u :| good(u) && low(t, events[n].event, u) && states[n + 1] == image(u);
        RunMore(first, low, behind, straight, events[n].event, u);
        behind := behind + [u];
      }
    }
  }
}
