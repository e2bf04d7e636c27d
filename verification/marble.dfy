/**
 * The marble record, the notifications it emits, and the protocol through which
 * the engine drives the (abstract) per-character states.
 */
module Marbles {
  import opened Vector

  /** A marble carrying a state of the abstract state type S. */
  datatype Marble<S> = Marble(
    pos: Pos,
    id: int,
    value: int,
    dir: Pos,
    state: S,
    stack: seq<int>)

  /** What a state's `run` may change on its marble: everything except id and state. */
  datatype Effect = Effect(pos: Pos, dir: Pos, value: int, stack: seq<int>)

  /**
   * The state protocol. The concrete states are not part of this model: `next`
   * and `run` are arbitrary total functions, `isDead` and `isWaiting` arbitrary
   * predicates, `dead` the Dead state and `travel` the default Travel state.
   */
  datatype Behaviour<!S> = Behaviour(
    next: (S, char) -> S,
    run: (S, char, Marble<S>) -> Effect,
    isDead: S -> bool,
    isWaiting: S -> bool,
    dead: S,
    travel: S)

  /** Notifications sent to the environment's IO sink, in emission order. */
  datatype Event =
    | MicroTick(at: Pos)
    | Finish
    | Error(at: Pos)

  /** The marble after its state's effect has been carried out. */
  function Apply<S>(m: Marble<S>, e: Effect): Marble<S> {
    m.(pos := e.pos, dir := e.dir, value := e.value, stack := e.stack)
  }

  /** The part of a marble an effect describes, unchanged. */
  function Unchanged<S>(m: Marble<S>): Effect {
    Effect(m.pos, m.dir, m.value, m.stack)
  }

  /** Number of micro-tick notifications in a trace. */
  function MicroTicks(es: seq<Event>): nat {
    if es == [] then 0 else (if es[0].MicroTick? then 1 else 0) + MicroTicks(es[1..])
  }

  /** Number of finish notifications in a trace. */
  function Finishes(es: seq<Event>): nat {
    if es == [] then 0 else (if es[0].Finish? then 1 else 0) + Finishes(es[1..])
  }

  lemma {:induction false} CountsOfConcat(a: seq<Event>, b: seq<Event>)
    ensures MicroTicks(a + b) == MicroTicks(a) + MicroTicks(b)
    ensures Finishes(a + b) == Finishes(a) + Finishes(b)
    decreases |a|
  {
    if a == [] {
      assert a + b == b;
    } else {
      assert (a + b)[1..] == a[1..] + b;
      CountsOfConcat(a[1..], b);
    }
  }
}
