/**
 * The marble engine: construction (with initial-direction resolution and the
 * one initial move), `move`, and the per-marble tick loop.
 */
module Dot {
  import opened Option
  import opened Vector
  import opened World
  import opened Marbles

  /** The grid character that ends the whole program. */
  const HaltChar: char := '&'

  /** Characters that let a fresh marble leave in any heading. */
  const ValidChars: set<char> := {'\\', '/', '*', '^', 'v', '>', '<', '+'}

  // ---------------------------------------------------------------------------
  // Movement

  /** One step along the marble's current heading. */
  function Move<S>(m: Marble<S>): (r: Marble<S>)
    ensures Add(m.pos, m.dir) == r.pos
    ensures r.(pos := m.pos) == m
  {
    m.(pos := Add(m.pos, m.dir))
  }

  // ---------------------------------------------------------------------------
  // Initial-direction resolution

  /** The characters that open heading `d` to a fresh marble. */
  function Openings(d: Pos): set<char> {
    ValidChars
      + (if IsVertical(d) then {'|'} else {})
      + (if IsHorizontal(d) then {'-'} else {})
  }

  /** The neighbour of `p` in heading `d` exists and carries an opening for `d`. */
  predicate Admits(g: Grid, p: Pos, d: Pos) {
    var n := Add(p, d);
    Exists(g, n) && CharAt(g, n) in Openings(d)
  }

  /** `d` is admitted and is the first admitted heading of `ds`. */
  predicate FirstAdmitted(g: Grid, p: Pos, ds: seq<Pos>, i: int) {
    && 0 <= i < |ds|
    && Admits(g, p, ds[i])
    && forall j :: 0 <= j < i ==> !Admits(g, p, ds[j])
  }

  /**
   * The scan over the headings `ds`, in order: a heading whose neighbour does not
   * exist is skipped without reading it; otherwise it is taken on a pipe (for a
   * vertical heading), a dash (for a horizontal heading) or a direction-capable
   * character.
   */
  function Scan(g: Grid, p: Pos, ds: seq<Pos>): (r: Option<Pos>)
    ensures r.Some? ==> exists i :: FirstAdmitted(g, p, ds, i) && ds[i] == r.value
    ensures r.None? <==> forall j :: 0 <= j < |ds| ==> !Admits(g, p, ds[j])
  {
    if ds == [] then None
    else
      var d := ds[0];
      var loc := Add(p, d);
      if !Exists(g, loc) then
        var r := Scan(g, p, ds[1..]);
        assert r.Some? ==> exists i :: FirstAdmitted(g, p, ds, i) && ds[i] == r.value by {
          if r.Some? {
            var i :| FirstAdmitted(g, p, ds[1..], i) && ds[1..][i] == r.value;
            assert FirstAdmitted(g, p, ds, i + 1);
          }
        }
        r
      else if IsVertical(d) && CharAt(g, loc) == '|' then
        assert FirstAdmitted(g, p, ds, 0);
        Some(d)
      else if IsHorizontal(d) && CharAt(g, loc) == '-' then
        assert FirstAdmitted(g, p, ds, 0);
        Some(d)
      else if CharAt(g, loc) in ValidChars then
        assert FirstAdmitted(g, p, ds, 0);
        Some(d)
      else
        var r := Scan(g, p, ds[1..]);
        assert r.Some? ==> exists i :: FirstAdmitted(g, p, ds, i) && ds[i] == r.value by {
          if r.Some? {
            var i :| FirstAdmitted(g, p, ds[1..], i) && ds[1..][i] == r.value;
            assert FirstAdmitted(g, p, ds, i + 1);
          }
        }
        r
  }

  /** The initial heading of a marble spawned at `p`, or None when no heading qualifies. */
  function CalculateDirection(g: Grid, p: Pos): (r: Option<Pos>)
    ensures r.Some? ==> r.value in Directions && Admits(g, p, r.value)
    ensures r.None? <==> forall d :: d in Directions ==> !Admits(g, p, d)
  {
    Scan(g, p, Directions)
  }

  // ---------------------------------------------------------------------------
  // Construction

  datatype Created<S> = Created(marble: Marble<S>, events: seq<Event>)

  /**
   * A new marble spawned at `pos`. Omitted arguments take their defaults; an
   * omitted heading is resolved by `CalculateDirection`, and when that fails an
   * error is reported, the state is forced to Dead and the heading is zero.
   * Construction ends with one move.
   */
  function NewMarble<S>(b: Behaviour<S>, g: Grid, pos: Pos,
                        id: Option<int>, value: Option<int>, direction: Option<Pos>,
                        state: Option<S>, stack: Option<seq<int>>): (c: Created<S>)
    ensures c.marble.pos == Add(pos, c.marble.dir)
    ensures c.marble.id == id.ValueOr(0) && c.marble.value == value.ValueOr(0)
    ensures c.marble.stack == stack.ValueOr([])
    ensures direction.Some? ==> c.marble.dir == direction.value && c.events == []
    ensures c.events == [] ==> c.marble.state == state.ValueOr(b.travel)
    ensures c.events != [] ==>
              && direction.None?
              && (forall d :: d in Directions ==> !Admits(g, pos, d))
              && c.events == [Error(pos)]
              && c.marble.state == b.dead
              && c.marble.dir == Zero
              && c.marble.pos == pos
    ensures direction.None? ==>
              && (c.events == [] <==> CalculateDirection(g, pos).Some?)
              && (c.events == [] ==> Some(c.marble.dir) == CalculateDirection(g, pos))
  {
    var s0 := state.ValueOr(b.travel);
    var (dir, s, events) :=
      match direction
      case Some(d) => (d, s0, [])
      case None =>
        match CalculateDirection(g, pos)
        case Some(d) => (d, s0, [])
        case None => (Zero, b.dead, [Error(pos)]);
    var m := Marble(pos, id.ValueOr(0), value.ValueOr(0), dir, s, stack.ValueOr([]));
    Created(Move(m), events)
  }

  // ---------------------------------------------------------------------------
  // The tick loop

  /** How a tick call ended. */
  datatype Exit =
    | Revisited   // the marble stood on a cell already visited during this call
    | OffGrid     // the marble stood outside the grid and died
    | Halt        // the marble landed on the halt character: the whole program ends
    | Died        // the state after the transition is dead
    | Waiting     // the state after the transition must wait
    | Stepped     // single-step mode: one iteration done

  /** The outcome of a tick call: the marble, the exit, the notifications, and the visited cells. */
  datatype Tick<S> = Tick(marble: Marble<S>, exit: Exit, events: seq<Event>, path: seq<Pos>)

  function Visited(ps: seq<Pos>): set<Pos> {
    set p | p in ps
  }

  predicate NoDup(s: seq<Pos>) {
    forall i, j :: 0 <= i < j < |s| ==> s[i] != s[j]
  }

  function Last<T>(s: seq<T>): T
    requires s != []
  {
    s[|s| - 1]
  }

  /** Loop iterations of a call that started with `visited` already recorded. */
  function Iterations<S>(t: Tick<S>, visited: seq<Pos>): int {
    |t.path| - |visited| + (if t.exit == Revisited then 1 else 0)
  }

  /** The transition of one iteration on an existing, non-halt cell: `next`, then `run`. */
  function Transition<S>(b: Behaviour<S>, m: Marble<S>, c: char): (r: Marble<S>)
    ensures r.state == b.next(m.state, c) && r.id == m.id
    ensures Unchanged(r) == b.run(r.state, c, m.(state := r.state))
  {
    var s := b.next(m.state, c);
    var m1 := m.(state := s);
    Apply(m1, b.run(s, c, m1))
  }

  /** The outcome of one pass of the loop body: the call ends, or it goes round again. */
  datatype Step<S> =
    | Done(tick: Tick<S>)
    | Again(next: Marble<S>, sent: seq<Event>)

  /** The micro-tick a pass starts with: sent only in run-until-waiting mode. */
  function Sent<S>(m: Marble<S>, untilWaiting: bool): seq<Event> {
    if untilWaiting then [MicroTick(m.pos)] else []
  }

  /**
   * One pass of the loop body, for a marble that has already visited `visited`
   * during this call: the micro-tick, the revisit guard, the bounds check, the
   * halt character, and the transition with the dead, waiting and single-step
   * exits.
   */
  function Iteration<S>(b: Behaviour<S>, g: Grid, m: Marble<S>, untilWaiting: bool, visited: seq<Pos>): (s: Step<S>)
    ensures s.Again? ==> untilWaiting && m.pos !in visited && Exists(g, m.pos)
    ensures s.Done? ==> visited <= s.tick.path && s.tick.marble.id == m.id
    ensures s.Done? ==> (s.tick.exit == Revisited <==> s.tick.path == visited)
    ensures s.Done? && s.tick.exit != Revisited ==> s.tick.path == visited + [m.pos]
    ensures s.Done? ==> s.tick.events == Sent(m, untilWaiting) + (if s.tick.exit == Halt then [Finish] else [])
    ensures s.Again? ==> s.sent == Sent(m, untilWaiting)
  {
    var ev := Sent(m, untilWaiting);
    if m.pos in visited then
      Done(Tick(m, Revisited, ev, visited))
    else if !Exists(g, m.pos) then
      Done(Tick(m.(state := b.dead), OffGrid, ev, visited + [m.pos]))
    else
      var c := CharAt(g, m.pos);
      if c == HaltChar then
        Done(Tick(m.(state := b.dead), Halt, ev + [Finish], visited + [m.pos]))
      else
        var m' := Transition(b, m, c);
        if b.isDead(m'.state) then Done(Tick(m', Died, ev, visited + [m.pos]))
        else if b.isWaiting(m'.state) then Done(Tick(m', Waiting, ev, visited + [m.pos]))
        else if !untilWaiting then Done(Tick(m', Stepped, ev, visited + [m.pos]))
        else Again(m', ev)
  }

  /**
   * The loop of a tick call, from an iteration whose `visited` cells were
   * recorded by earlier iterations of the same call.
   */
  function Loop<S>(b: Behaviour<S>, g: Grid, m: Marble<S>, untilWaiting: bool, visited: seq<Pos>): (t: Tick<S>)
    ensures visited <= t.path
    ensures t.marble.id == m.id
    ensures t.exit != Revisited ==> |t.path| > |visited|
    decreases g.Keys - Visited(visited)
  {
    match Iteration(b, g, m, untilWaiting, visited)
    case Done(t) => t
    case Again(m', ev) =>
      var visited' := visited + [m.pos];
      assert Visited(visited') == Visited(visited) + {m.pos};
      var t := Loop(b, g, m', untilWaiting, visited');
      t.(events := ev + t.events)
  }

  /** The cells visited in one call are distinct; every one but an off-grid last cell exists. */
  lemma {:induction false} LoopPath<S>(b: Behaviour<S>, g: Grid, m: Marble<S>, untilWaiting: bool, visited: seq<Pos>)
    requires NoDup(visited)
    requires forall q :: q in visited ==> Exists(g, q)
    ensures var t := Loop(b, g, m, untilWaiting, visited);
      && NoDup(t.path)
      && (forall i :: 0 <= i < |t.path| - 1 ==> Exists(g, t.path[i]))
      && (t.exit == OffGrid <==> !Exists(g, Last(t.path)))
      && (t.exit == Revisited ==> t.marble.pos in t.path)
    decreases g.Keys - Visited(visited)
  {
    var t := Loop(b, g, m, untilWaiting, visited);
    if m.pos in visited {
    } else if !Exists(g, m.pos) {
    } else if CharAt(g, m.pos) == HaltChar {
    } else {
      var m' := Transition(b, m, CharAt(g, m.pos));
      if !b.isDead(m'.state) && !b.isWaiting(m'.state) && untilWaiting {
        var visited' := visited + [m.pos];
        assert Visited(visited') == Visited(visited) + {m.pos};
        LoopPath(b, g, m', untilWaiting, visited');
      }
    }
  }

  /** A call that starts with `visited` recorded runs at most one iteration more than there are unvisited cells. */
  lemma {:induction false} LoopBound<S>(b: Behaviour<S>, g: Grid, m: Marble<S>, untilWaiting: bool, visited: seq<Pos>)
    ensures Iterations(Loop(b, g, m, untilWaiting, visited), visited) <= |g.Keys - Visited(visited)| + 1
    decreases g.Keys - Visited(visited)
  {
    if m.pos in visited {
    } else if !Exists(g, m.pos) {
    } else if CharAt(g, m.pos) == HaltChar {
    } else {
      var m' := Transition(b, m, CharAt(g, m.pos));
      if !b.isDead(m'.state) && !b.isWaiting(m'.state) && untilWaiting {
        var visited' := visited + [m.pos];
        assert Visited(visited') == Visited(visited) + {m.pos};
        assert g.Keys - Visited(visited) == (g.Keys - Visited(visited')) + {m.pos};
        LoopBound(b, g, m', untilWaiting, visited');
      }
    }
  }

  /**
   * The notifications of a call are its micro-ticks and finishes and nothing
   * else: one micro-tick per iteration in run-until-waiting mode, none in
   * single-step mode.
   */
  lemma {:induction false} LoopEvents<S>(b: Behaviour<S>, g: Grid, m: Marble<S>, untilWaiting: bool, visited: seq<Pos>)
    ensures var t := Loop(b, g, m, untilWaiting, visited);
      && MicroTicks(t.events) == (if untilWaiting then Iterations(t, visited) else 0)
      && |t.events| == MicroTicks(t.events) + Finishes(t.events)
    decreases g.Keys - Visited(visited)
  {
    var ev := Sent(m, untilWaiting);
    assert MicroTicks(ev) == |ev| == (if untilWaiting then 1 else 0) && Finishes(ev) == 0;
    if m.pos in visited {
    } else if !Exists(g, m.pos) {
    } else if CharAt(g, m.pos) == HaltChar {
      CountsOfConcat(ev, [Finish]);
    } else {
      var m' := Transition(b, m, CharAt(g, m.pos));
      if !b.isDead(m'.state) && !b.isWaiting(m'.state) && untilWaiting {
        var visited' := visited + [m.pos];
        assert Visited(visited') == Visited(visited) + {m.pos};
        var t' := Loop(b, g, m', untilWaiting, visited');
        assert Loop(b, g, m, untilWaiting, visited) == t'.(events := ev + t'.events);
        LoopEvents(b, g, m', untilWaiting, visited');
        CountsOfConcat(ev, t'.events);
      }
    }
  }

  /** A finish notification is sent exactly when the call halts, once, and as the last notification. */
  lemma {:induction false} LoopFinish<S>(b: Behaviour<S>, g: Grid, m: Marble<S>, untilWaiting: bool, visited: seq<Pos>)
    ensures var t := Loop(b, g, m, untilWaiting, visited);
      && Finishes(t.events) == (if t.exit == Halt then 1 else 0)
      && (t.exit == Halt ==> t.events != [] && Last(t.events) == Finish)
    decreases g.Keys - Visited(visited)
  {
    var ev := Sent(m, untilWaiting);
    assert Finishes(ev) == 0;
    if m.pos in visited {
    } else if !Exists(g, m.pos) {
    } else if CharAt(g, m.pos) == HaltChar {
      CountsOfConcat(ev, [Finish]);
    } else {
      var m' := Transition(b, m, CharAt(g, m.pos));
      if !b.isDead(m'.state) && !b.isWaiting(m'.state) && untilWaiting {
        var visited' := visited + [m.pos];
        assert Visited(visited') == Visited(visited) + {m.pos};
        var t' := Loop(b, g, m', untilWaiting, visited');
        assert Loop(b, g, m, untilWaiting, visited) == t'.(events := ev + t'.events);
        LoopFinish(b, g, m', untilWaiting, visited');
        CountsOfConcat(ev, t'.events);
        if t'.exit == Halt {
          assert Last(ev + t'.events) == Last(t'.events);
        }
      }
    }
  }

  /** What each exit means about the marble it leaves behind. */
  lemma {:induction false} LoopExit<S>(b: Behaviour<S>, g: Grid, m: Marble<S>, untilWaiting: bool, visited: seq<Pos>)
    ensures var t := Loop(b, g, m, untilWaiting, visited);
      && (t.exit == OffGrid ==> !Exists(g, t.marble.pos) && t.marble.state == b.dead)
      && (t.exit == Halt ==> Exists(g, t.marble.pos) && CharAt(g, t.marble.pos) == HaltChar && t.marble.state == b.dead)
      && (t.exit == Died ==> b.isDead(t.marble.state))
      && (t.exit == Waiting ==> !b.isDead(t.marble.state) && b.isWaiting(t.marble.state))
      && (t.exit == Stepped ==> !untilWaiting && !b.isDead(t.marble.state) && !b.isWaiting(t.marble.state))
      && (t.exit == Revisited && |t.path| > |visited| ==>
            untilWaiting && !b.isDead(t.marble.state) && !b.isWaiting(t.marble.state))
      && (t.exit == Revisited && |t.path| == |visited| ==> t.marble == m)
    decreases g.Keys - Visited(visited)
  {
    if m.pos in visited {
    } else if !Exists(g, m.pos) {
    } else if CharAt(g, m.pos) == HaltChar {
    } else {
      var m' := Transition(b, m, CharAt(g, m.pos));
      if !b.isDead(m'.state) && !b.isWaiting(m'.state) && untilWaiting {
        var visited' := visited + [m.pos];
        assert Visited(visited') == Visited(visited) + {m.pos};
        LoopExit(b, g, m', untilWaiting, visited');
      }
    }
  }

  /**
   * One `simulate_tick` call: the loop with nothing visited yet. It ends within
   * one pass more than the grid has cells, over distinct cells that all exist
   * except an off-grid last one; each exit means what its name says.
   */
  function SimulateTick<S>(b: Behaviour<S>, g: Grid, m: Marble<S>, untilWaiting: bool): (t: Tick<S>)
    ensures Iterations(t, []) <= |g| + 1
    ensures t.path != [] && t.path[0] == m.pos
    ensures NoDup(t.path)
    ensures forall i :: 0 <= i < |t.path| - 1 ==> Exists(g, t.path[i])
    ensures t.exit == OffGrid ==> !Exists(g, Last(t.path)) && !Exists(g, t.marble.pos) && t.marble.state == b.dead
    ensures t.exit == Halt ==> Exists(g, t.marble.pos) && CharAt(g, t.marble.pos) == HaltChar && t.marble.state == b.dead
    ensures t.exit == Died ==> b.isDead(t.marble.state)
    ensures t.exit == Waiting ==> !b.isDead(t.marble.state) && b.isWaiting(t.marble.state)
    ensures t.exit == Stepped ==> !untilWaiting && !b.isDead(t.marble.state) && !b.isWaiting(t.marble.state)
    ensures t.exit == Revisited ==>
              untilWaiting && t.marble.pos in t.path && !b.isDead(t.marble.state) && !b.isWaiting(t.marble.state)
    ensures b.isDead(b.dead) ==> (b.isDead(t.marble.state) <==> (t.exit == OffGrid || t.exit == Halt || t.exit == Died))
    ensures MicroTicks(t.events) == (if untilWaiting then Iterations(t, []) else 0)
    ensures Finishes(t.events) == (if t.exit == Halt then 1 else 0)
    ensures t.exit == Halt ==> t.events != [] && Last(t.events) == Finish
    ensures |t.events| == MicroTicks(t.events) + Finishes(t.events)
  {
    var t := Loop(b, g, m, untilWaiting, []);
    LoopPath(b, g, m, untilWaiting, []);
    LoopBound(b, g, m, untilWaiting, []);
    LoopEvents(b, g, m, untilWaiting, []);
    LoopFinish(b, g, m, untilWaiting, []);
    LoopExit(b, g, m, untilWaiting, []);
    assert g.Keys - Visited([]) == g.Keys;
    assert [] <= t.path;
    t
  }
}
