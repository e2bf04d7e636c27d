/** Properties of the tick loop: termination bound, exits, notifications, and the two modes. */
module TickProperties {
  import opened Vector
  import opened World
  import opened Marbles
  import opened Dot

  // ---------------------------------------------------------------------------
  // One simulate_tick call

  /** Single-step mode runs exactly one iteration, never hits the revisit guard, and sends no micro-tick. */
  lemma SingleStep<S>(b: Behaviour<S>, g: Grid, m: Marble<S>)
    ensures var t := SimulateTick(b, g, m, false);
      && t.exit != Revisited
      && t.path == [m.pos]
      && MicroTicks(t.events) == 0
  {
    LoopEvents(b, g, m, false, []);
  }

  /** A call that starts off the grid only kills the marble: no lookup, no transition, nothing else changes. */
  lemma OffGridDies<S>(b: Behaviour<S>, g: Grid, m: Marble<S>, untilWaiting: bool)
    requires !Exists(g, m.pos)
    ensures var t := SimulateTick(b, g, m, untilWaiting);
      && t.exit == OffGrid
      && t.marble.state == b.dead
      && Unchanged(t.marble) == Unchanged(m)
      && t.path == [m.pos]
      && t.events == (if untilWaiting then [MicroTick(m.pos)] else [])
  {
  }

  /**
   * Landing on the halt character kills the marble and ends the program with a
   * finish notification; the state protocol is not consulted.
   */
  lemma HaltEndsProgram<S>(b: Behaviour<S>, g: Grid, m: Marble<S>, untilWaiting: bool)
    requires Exists(g, m.pos) && CharAt(g, m.pos) == HaltChar
    ensures var t := SimulateTick(b, g, m, untilWaiting);
      && t.exit == Halt
      && t.marble.state == b.dead
      && Unchanged(t.marble) == Unchanged(m)
      && t.events != [] && Last(t.events) == Finish
  {
  }

  /**
   * On an existing cell other than the halt character, one iteration replaces
   * the state by `next(char)` and then carries out `run(char)` of that new state.
   */
  lemma TransitionThenRun<S>(b: Behaviour<S>, g: Grid, m: Marble<S>)
    requires Exists(g, m.pos) && CharAt(g, m.pos) != HaltChar
    ensures var c := CharAt(g, m.pos);
      var s := b.next(m.state, c);
      var t := SimulateTick(b, g, m, false);
      && t.marble.state == s
      && Unchanged(t.marble) == b.run(s, c, m.(state := s))
      && t.exit == (if b.isDead(s) then Died else if b.isWaiting(s) then Waiting else Stepped)
  {
  }

  /**
   * Run-until-waiting is single steps repeated: the first iteration is the
   * single step; unless that step ended the call, the call continues from the
   * stepped marble with the start cell recorded as visited.
   */
  lemma UntilWaitingIsRepeatedSteps<S>(b: Behaviour<S>, g: Grid, m: Marble<S>)
    ensures var one := SimulateTick(b, g, m, false);
      var all := SimulateTick(b, g, m, true);
      && (one.exit != Stepped ==>
            all.marble == one.marble && all.exit == one.exit && all.path == one.path
            && all.events == [MicroTick(m.pos)] + one.events)
      && (one.exit == Stepped ==>
            var rest := Loop(b, g, one.marble, true, [m.pos]);
            all.marble == rest.marble && all.exit == rest.exit && all.path == rest.path
            && all.events == [MicroTick(m.pos)] + rest.events)
  {
    var one := Loop(b, g, m, false, []);
    var all := Loop(b, g, m, true, []);
    assert SimulateTick(b, g, m, false) == one && SimulateTick(b, g, m, true) == all;
    assert [] + [m.pos] == [m.pos];
    if Exists(g, m.pos) && CharAt(g, m.pos) != HaltChar {
      var m' := Transition(b, m, CharAt(g, m.pos));
      if !b.isDead(m'.state) && !b.isWaiting(m'.state) {
        assert one.marble == m' && one.exit == Stepped;
        var rest := Loop(b, g, m', true, [m.pos]);
        assert all == rest.(events := [MicroTick(m.pos)] + rest.events);
      }
    }
  }

  /**
   * The revisit guard: a state that is never dead or waiting and whose effect
   * never moves the marble makes a run-until-waiting call stop on the second
   * iteration, back on the cell it started from, instead of spinning forever.
   */
  lemma RevisitGuardStopsStationaryState<S>(b: Behaviour<S>, g: Grid, m: Marble<S>)
    requires Exists(g, m.pos) && CharAt(g, m.pos) != HaltChar
    requires forall s, c :: !b.isDead(b.next(s, c)) && !b.isWaiting(b.next(s, c))
    requires forall s, c, x :: b.run(s, c, x).pos == x.pos
    ensures var t := SimulateTick(b, g, m, true);
      && t.exit == Revisited
      && t.marble.pos == m.pos
      && t.path == [m.pos]
      && MicroTicks(t.events) == 2
  {
    LoopEvents(b, g, m, true, []);
  }

  /** The Dead state absorbs: it stays dead under `next` and its `run` changes nothing. */
  ghost predicate DeadAbsorbing<S(!new)>(b: Behaviour<S>) {
    && b.isDead(b.dead)
    && (forall s, c :: b.isDead(s) ==> b.isDead(b.next(s, c)))
    && (forall s, c, x :: b.isDead(s) ==> b.run(s, c, x) == Unchanged(x))
  }

  /** A dead marble stays dead and inert through any tick call, provided its states absorb. */
  lemma DeadIsInert<S(!new)>(b: Behaviour<S>, g: Grid, m: Marble<S>, untilWaiting: bool)
    requires DeadAbsorbing(b)
    requires b.isDead(m.state)
    ensures var t := SimulateTick(b, g, m, untilWaiting);
      && b.isDead(t.marble.state)
      && Unchanged(t.marble) == Unchanged(m)
      && t.marble.id == m.id
      && t.exit in {OffGrid, Halt, Died}
      && t.path == [m.pos]
  {
  }
}
