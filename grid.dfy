/**
 * The maze grid: a flat sequence of cells, `width` cells per row, where each
 * cell records only the walls on its own north and west sides.  The wall on a
 * cell's south side is the north wall of the cell below it, and the wall on its
 * east side is the west wall of the cell to its right.
 */
module Grid {

  /** A wall tag stored in a cell. */
  datatype Wall = North | West

  /** The wall tags of one cell. */
  type Cell = set<Wall>

  /** A move of the pony, listed in the order in which the solver tries them. */
  datatype Direction = GoWest | GoEast | GoSouth | GoNorth

  /** Position of a direction in the solver's expansion order: west, east, south, north. */
  function Order(d: Direction): (r: nat)
    ensures r < 4
  {
    match d
    case GoWest => 0
    case GoEast => 1
    case GoSouth => 2
    case GoNorth => 3
  }

  function Opposite(d: Direction): Direction {
    match d
    case GoWest => GoEast
    case GoEast => GoWest
    case GoSouth => GoNorth
    case GoNorth => GoSouth
  }

  /** The flat index reached from `i` by one move in direction `d`. */
  function Step(i: int, d: Direction, width: int): int {
    match d
    case GoWest => i - 1
    case GoEast => i + 1
    case GoSouth => i + width
    case GoNorth => i - width
  }

  function Column(i: int, width: int): int
    requires width > 0
  {
    i % width
  }

  function Row(i: int, width: int): int
    requires width > 0
  {
    i / width
  }

  /**
   * The border walls this model assumes of the mazes the service sends (the
   * client never checks them): every cell of the leftmost column has its west
   * wall and every cell of the top row its north wall.  The west walls of the
   * leftmost column are also the east walls of the rightmost column, one row up.
   */
  predicate Bordered(data: seq<Cell>, width: int) {
    && width > 0
    && forall i :: 0 <= i < |data| ==>
         (i % width == 0 ==> West in data[i]) && (i < width ==> North in data[i])
  }

  // ---------------------------------------------------------------------------
  // Move checks used for keyboard input (canGoNorth, canGoWest, canGoSouth,
  // canGoEast).  They read the wall owner's cell without any bounds check, so they
  // are defined only when that cell exists.
  // ---------------------------------------------------------------------------

  /** The cell that `CanGo` reads for a move from `pony` in direction `d` exists. */
  predicate CanGoDefined(data: seq<Cell>, width: int, pony: int, d: Direction) {
    match d
    case GoNorth => 0 <= pony < |data|
    case GoWest => 0 <= pony < |data|
    case GoSouth => 0 <= pony + width < |data|
    case GoEast => 0 <= pony + 1 < |data|
  }

  /** Whether the pony at `pony` may move in direction `d`, judged by wall ownership alone. */
  predicate CanGo(data: seq<Cell>, width: int, pony: int, d: Direction)
    requires CanGoDefined(data, width, pony, d)
  {
    match d
    case GoNorth => North !in data[pony]
    case GoWest => West !in data[pony]
    case GoSouth => North !in data[pony + width]
    case GoEast => West !in data[pony + 1]
  }

  // ---------------------------------------------------------------------------
  // Move checks used by the solver: the same wall tests, with the east and
  // south moves refused when the neighbouring cell does not exist.
  // ---------------------------------------------------------------------------

  /** Whether the solver expands a move from cell `i` in direction `d`. */
  predicate Open(data: seq<Cell>, width: int, i: int, d: Direction)
    requires 0 <= i < |data|
  {
    match d
    case GoWest => West !in data[i]
    case GoEast => i + 1 < |data| && West !in data[i + 1]
    case GoSouth => 0 <= i + width < |data| && North !in data[i + width]
    case GoNorth => North !in data[i]
  }

  /** `b` is one legal solver move away from `a`. */
  predicate Adjacent(data: seq<Cell>, width: int, a: int, b: int) {
    0 <= a < |data| && exists d :: Open(data, width, a, d) && Step(a, d, width) == b
  }

  // ---------------------------------------------------------------------------
  // Properties of the move checks
  // ---------------------------------------------------------------------------

  /**
   * Wherever a keyboard move check is defined, it agrees with the solver's
   * check, so a solver route can be walked with the arrow keys.
   */
  lemma CanGoAgreesWithOpen(data: seq<Cell>, width: int, pony: int, d: Direction)
    requires 0 <= pony < |data|
    requires CanGoDefined(data, width, pony, d)
    ensures CanGo(data, width, pony, d) <==> Open(data, width, pony, d)
  {
  }

  /** On a bordered maze, a move that runs into the maze's outer edge is refused. */
  lemma BorderBlocks(data: seq<Cell>, width: int, pony: int)
    requires Bordered(data, width)
    requires 0 <= pony < |data|
    ensures Column(pony, width) == 0 ==> !CanGo(data, width, pony, GoWest)
    ensures Row(pony, width) == 0 ==> !CanGo(data, width, pony, GoNorth)
    ensures Column(pony, width) == width - 1 && pony + 1 < |data| ==> !CanGo(data, width, pony, GoEast)
  {
    if Column(pony, width) == width - 1 && pony + 1 < |data| {
      DivModUnique(pony, width, Row(pony, width), width - 1);
      DivModUnique(pony + 1, width, Row(pony, width) + 1, 0);
    }
    if Row(pony, width) == 0 {
      DivModUnique(pony, width, 0, Column(pony, width));
    }
  }

  /** `q` and `r` are the Euclidean quotient and remainder of `a` by `width`. */
  lemma DivModUnique(a: int, width: int, q: int, r: int)
    requires width > 0 && 0 <= r < width && a == width * q + r
    ensures a / width == q && a % width == r
  {
    var k := q - a / width;
    assert width * k == a % width - r;
    if k >= 1 {
      MulAtLeast(width, k);
    } else if k <= -1 {
      MulAtLeast(width, -k);
    }
  }

  lemma MulAtLeast(width: int, k: int)
    requires width > 0 && k >= 1
    ensures width * k >= width
  {
  }

  /** On a bordered maze every solver move stays on the grid. */
  lemma OpenStaysOnGrid(data: seq<Cell>, width: int, i: int, d: Direction)
    requires Bordered(data, width)
    requires 0 <= i < |data|
    requires Open(data, width, i, d)
    ensures 0 <= Step(i, d, width) < |data|
  {
    match d
    case GoWest =>
    case GoNorth =>
    case GoEast =>
    case GoSouth =>
  }

  /**
   * On a bordered maze the flat-index arithmetic never wraps across a row:
   * west and east moves keep the row and shift the column by one, south and
   * north moves keep the column and shift the row by one.
   */
  lemma NoWrap(data: seq<Cell>, width: int, i: int, d: Direction)
    requires Bordered(data, width)
    requires 0 <= i < |data|
    requires Open(data, width, i, d)
    ensures var j := Step(i, d, width);
      match d
      case GoWest => Row(j, width) == Row(i, width) && Column(j, width) == Column(i, width) - 1
      case GoEast => Row(j, width) == Row(i, width) && Column(j, width) == Column(i, width) + 1
      case GoSouth => Column(j, width) == Column(i, width) && Row(j, width) == Row(i, width) + 1
      case GoNorth => Column(j, width) == Column(i, width) && Row(j, width) == Row(i, width) - 1
  {
    match d
    case GoWest => NoWrapWest(data, width, i);
    case GoEast => NoWrapEast(data, width, i);
    case GoSouth => NoWrapSouth(width, i);
    case GoNorth => NoWrapNorth(data, width, i);
  }

  lemma NoWrapWest(data: seq<Cell>, width: int, i: int)
    requires Bordered(data, width)
    requires 0 <= i < |data|
    requires Open(data, width, i, GoWest)
    ensures Row(i - 1, width) == Row(i, width) && Column(i - 1, width) == Column(i, width) - 1
  {
    DivMod(i, width);
    DivModUnique(i - 1, width, Row(i, width), Column(i, width) - 1);
  }

  lemma NoWrapEast(data: seq<Cell>, width: int, i: int)
    requires Bordered(data, width)
    requires 0 <= i < |data|
    requires Open(data, width, i, GoEast)
    ensures Row(i + 1, width) == Row(i, width) && Column(i + 1, width) == Column(i, width) + 1
  {
    var q, r := Row(i, width), Column(i, width);
    DivMod(i, width);
    if r == width - 1 {
      DivModUnique(i + 1, width, q + 1, 0);
    } else {
      DivModUnique(i + 1, width, q, r + 1);
    }
  }

  lemma NoWrapSouth(width: int, i: int)
    requires width > 0
    ensures Column(i + width, width) == Column(i, width) && Row(i + width, width) == Row(i, width) + 1
  {
    DivMod(i, width);
    DivModUnique(i + width, width, Row(i, width) + 1, Column(i, width));
  }

  lemma NoWrapNorth(data: seq<Cell>, width: int, i: int)
    requires Bordered(data, width)
    requires 0 <= i < |data|
    requires Open(data, width, i, GoNorth)
    ensures Column(i - width, width) == Column(i, width) && Row(i - width, width) == Row(i, width) - 1
  {
    var q, r := Row(i, width), Column(i, width);
    DivMod(i, width);
    if q == 0 {
      DivModUnique(i, width, 0, r);
    } else {
      DivModUnique(i - width, width, q - 1, r);
    }
  }

  lemma DivMod(a: int, width: int)
    requires width > 0
    ensures a == width * Row(a, width) + Column(a, width) && 0 <= Column(a, width) < width
  {
  }

  /**
   * On a bordered maze the adjacency is symmetric: a move from `i` can be
   * undone by the opposite move, because both sides read the same wall.
   */
  lemma MoveReversible(data: seq<Cell>, width: int, i: int, d: Direction)
    requires Bordered(data, width)
    requires 0 <= i < |data|
    requires Open(data, width, i, d)
    ensures 0 <= Step(i, d, width) < |data|
    ensures Open(data, width, Step(i, d, width), Opposite(d))
    ensures Step(Step(i, d, width), Opposite(d), width) == i
  {
    OpenStaysOnGrid(data, width, i, d);
  }

  /** Symmetry of `Adjacent` on a bordered maze. */
  lemma AdjacentSymmetric(data: seq<Cell>, width: int, a: int, b: int)
    requires Bordered(data, width)
    requires Adjacent(data, width, a, b)
    ensures Adjacent(data, width, b, a)
  {
    var d :| Open(data, width, a, d) && Step(a, d, width) == b;
    MoveReversible(data, width, a, d);
  }
}
