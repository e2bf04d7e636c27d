/** The read-only grid a program is drawn on. */
module World {
  import opened Vector

  /** The cells that exist, each with the character drawn there. */
  type Grid = map<Pos, char>

  predicate Exists(g: Grid, p: Pos) {
    p in g
  }

  /** The character at an existing cell; it can only be asked of a cell that exists. */
  function CharAt(g: Grid, p: Pos): char
    requires Exists(g, p)
  {
    g[p]
  }
}
