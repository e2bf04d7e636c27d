/** Properties of initial-direction resolution and of the single construction move. */
module DirectionProperties {
  import opened Option
  import opened Vector
  import opened World
  import opened Marbles
  import opened Dot

  /**
   * Resolution is first-match in the order up, down, left, right: it returns
   * heading i exactly when heading i is admitted and no earlier heading is.
   */
  lemma FirstMatchInScanOrder(g: Grid, p: Pos, i: int)
    requires 0 <= i < |Directions|
    ensures CalculateDirection(g, p) == Some(Directions[i]) <==> FirstAdmitted(g, p, Directions, i)
  {
    var r := CalculateDirection(g, p);
    if r.Some? {
      var k :| FirstAdmitted(g, p, Directions, k) && Directions[k] == r.value;
      if FirstAdmitted(g, p, Directions, i) {
        assert !(k < i) && !(i < k);
      }
    }
  }

  /** Once a heading is admitted, no later heading is chosen. */
  lemma EarlierHeadingWins(g: Grid, p: Pos, i: int, j: int)
    requires 0 <= i < j < |Directions|
    requires Admits(g, p, Directions[i])
    ensures CalculateDirection(g, p) != Some(Directions[j])
  {
    FirstMatchInScanOrder(g, p, j);
  }

  /** A heading is taken on its own line character only: a pipe opens up and down, a dash left and right. */
  lemma LineCharactersFollowOrientation(g: Grid, p: Pos, d: Pos)
    requires d in Directions
    requires Exists(g, Add(p, d))
    ensures CharAt(g, Add(p, d)) == '|' ==> (Admits(g, p, d) <==> IsVertical(d))
    ensures CharAt(g, Add(p, d)) == '-' ==> (Admits(g, p, d) <==> IsHorizontal(d))
  {
    assert '|' !in ValidChars && '-' !in ValidChars;
  }

  /** A move along a unit heading goes to a neighbouring cell. */
  lemma MoveIsUnitStep<S>(m: Marble<S>)
    requires m.dir in Directions
    ensures Adjacent(m.pos, Move(m).pos)
  {
  }

  /** A constructed marble that resolved its heading stands on the admitted neighbour of its spawn cell. */
  lemma ConstructedMarbleStandsOnOpening<S>(b: Behaviour<S>, g: Grid, pos: Pos,
                                           id: Option<int>, value: Option<int>,
                                           state: Option<S>, stack: Option<seq<int>>)
    requires CalculateDirection(g, pos).Some?
    ensures var c := NewMarble(b, g, pos, id, value, None, state, stack);
      && c.events == []
      && Adjacent(pos, c.marble.pos)
      && Exists(g, c.marble.pos)
      && CharAt(g, c.marble.pos) in Openings(c.marble.dir)
  {
  }
}
