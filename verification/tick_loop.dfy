/**
 * `simulate_tick` as the loop it is written as: a `while true` that records the
 * cells visited during the call, shown equal to the recursive `SimulateTick`.
 * Its `decreases` clause is the termination argument: the existing cells not
 * yet visited shrink on every iteration that goes round again.
 */
module TickLoop {
  import opened Vector
  import opened World
  import opened Marbles
  import opened Dot

  /** The outcome of the remaining iterations, after the notifications already sent. */
  function After<S>(sent: seq<Event>, rest: Tick<S>): Tick<S> {
    rest.(events := sent + rest.events)
  }

  /** The loop is one pass of `Iteration`, followed by the rest of the loop when the pass goes round again. */
  lemma LoopFollowsIteration<S>(b: Behaviour<S>, g: Grid, m: Marble<S>, untilWaiting: bool, past: seq<Pos>)
    ensures var s := Iteration(b, g, m, untilWaiting, past);
      s.Done? ==> Loop(b, g, m, untilWaiting, past) == s.tick
    ensures var s := Iteration(b, g, m, untilWaiting, past);
      s.Again? ==> Loop(b, g, m, untilWaiting, past) == After(s.sent, Loop(b, g, s.next, untilWaiting, past + [m.pos]))
  {
  }

  method SimulateTickLoop<S>(b: Behaviour<S>, g: Grid, m0: Marble<S>, untilWaiting: bool) returns (t: Tick<S>)
    ensures t == SimulateTick(b, g, m0, untilWaiting)
  {
    var m := m0;
    var past: seq<Pos> := [];
    var sent: seq<Event> := [];
    assert SimulateTick(b, g, m0, untilWaiting) == Loop(b, g, m0, untilWaiting, []);
    while true
      invariant After(sent, Loop(b, g, m, untilWaiting, past)) == Loop(b, g, m0, untilWaiting, [])
      decreases g.Keys - Visited(past)
    {
      LoopFollowsIteration(b, g, m, untilWaiting, past);
      match Iteration(b, g, m, untilWaiting, past)
      case Done(done) =>
        return After(sent, done);
      case Again(m', ev) =>
        var past' := past + [m.pos];
        assert Visited(past') == Visited(past) + {m.pos};
        ghost var rest := Loop(b, g, m', untilWaiting, past');
        assert (sent + ev) + rest.events == sent + (ev + rest.events);
        m, past, sent := m', past', sent + ev;
    }
  }
}
