/**
 * The game object: the size check of its constructor, the cheat-mode toggle,
 * the arrow-key handler, the end-of-game test applied to every state the maze
 * service returns, and the highlighted path of cheat mode.
 *
 * The service itself is not modelled: the state it returns after a render
 * request is passed in as a `Snapshot`, and the move a key press would post is
 * returned instead of being sent.
 */
module Game {
  import opened Wrappers
  import opened Grid
  import opened Solver

  /** The only message the constructor throws, for a bad width or a bad height alike. */
  const SizeMessage := "Invalid argument. Width must be between 15 and 25."

  /** The constructor's argument check: both sides must lie in 15..25. */
  function SizeCheck(width: int, height: int): (r: Option<string>)
    ensures r == None <==> 15 <= width <= 25 && 15 <= height <= 25
    ensures r != None ==> r == Some(SizeMessage)
  {
    if width < 15 || width > 25 then Some(SizeMessage)
    else if height < 15 || height > 25 then Some(SizeMessage)
    else None
  }

  /** How a state returned by the service ends the game, if it does. */
  datatype Outcome = Ongoing | Escaped | Eaten

  /**
   * The end-of-game test: reaching the end point wins, and wins even when the
   * Domo-kun stands on the same cell; otherwise meeting the Domo-kun loses.
   */
  function Completion(pony: int, domokun: int, endPoint: int): (r: Outcome)
    ensures r == Escaped <==> pony == endPoint
    ensures r == Eaten <==> pony != endPoint && pony == domokun
    ensures r == Ongoing <==> pony != endPoint && pony != domokun
  {
    if pony == endPoint then Escaped
    else if pony == domokun then Eaten
    else Ongoing
  }

  /** The arrow key codes: 37 left, 38 up, 39 right, 40 down. */
  function KeyDirection(keyCode: int): (r: Option<Direction>)
    ensures r.Some? <==> 37 <= keyCode <= 40
    ensures keyCode == 37 ==> r == Some(GoWest)
    ensures keyCode == 38 ==> r == Some(GoNorth)
    ensures keyCode == 39 ==> r == Some(GoEast)
    ensures keyCode == 40 ==> r == Some(GoSouth)
  {
    if keyCode == 37 then Some(GoWest)
    else if keyCode == 38 then Some(GoNorth)
    else if keyCode == 39 then Some(GoEast)
    else if keyCode == 40 then Some(GoSouth)
    else None
  }

  /** The part of the service's reply to a render request that the game reads. */
  datatype Snapshot = Snapshot(pony: int, domokun: int, endPoint: int, data: seq<Cell>)

  class Maze {
    const width: int
    const height: int
    var mazeId: string
    var cheating: bool
    var completed: bool
    var pony: int
    var domokun: int
    var endPoint: int
    var data: seq<Cell>

    /** A maze whose creation request is under way: no id and no state yet. */
    constructor (width: int, height: int)
      requires SizeCheck(width, height) == None
      ensures this.width == width && this.height == height
      ensures mazeId == "" && !cheating && !completed
      ensures pony == 0 && domokun == 0 && endPoint == 0 && data == []
    {
      this.width := width;
      this.height := height;
      mazeId := "";
      cheating := false;
      completed := false;
      pony := 0;
      domokun := 0;
      endPoint := 0;
      data := [];
    }

    /** `new Maze(pony, width, height)`: throws on a bad size, otherwise builds the maze. */
    static method Create(width: int, height: int) returns (r: Result<Maze>)
      ensures r.Err? <==> SizeCheck(width, height) != None
      ensures r.Err? ==> r.message == SizeMessage
      ensures r.Ok? ==> fresh(r.value) && r.value.width == width && r.value.height == height
      ensures r.Ok? ==> r.value.mazeId == "" && !r.value.cheating && !r.value.completed
    {
      var problem := SizeCheck(width, height);
      if problem.Some? {
        return Err(problem.value);
      }
      var m := new Maze(width, height);
      return Ok(m);
    }

    /** The creation request came back with the maze's id. */
    method Created(id: string)
      modifies this`mazeId
      ensures mazeId == id
    {
      mazeId := id;
    }

    /**
     * The `cheating` setter: stores the flag and reports whether it changed,
     * which is when the maze has to be rendered again.
     */
    method SetCheating(value: bool) returns (shouldRender: bool)
      modifies this`cheating
      ensures cheating == value
      ensures shouldRender <==> value != old(cheating)
    {
      shouldRender := value != cheating;
      cheating := value;
    }

    /** The game is over; the fading animation and its result label are not modelled. */
    method MazeCompleted(succeeded: bool)
      modifies this`completed
      ensures completed
    {
      completed := true;
    }

    /**
     * The arrow-key handler: once the game is over every key is ignored;
     * otherwise an arrow key yields its direction when the wall check for that
     * direction lets the pony through, and every other key yields nothing.
     * A move it yields is a legal solver move on a bordered maze.
     */
    method Keydown(keyCode: int) returns (move: Option<Direction>)
      requires !completed && KeyDirection(keyCode).Some? ==>
                 CanGoDefined(data, width, pony, KeyDirection(keyCode).value)
      ensures move.Some? <==>
                !completed && KeyDirection(keyCode).Some? && CanGo(data, width, pony, KeyDirection(keyCode).value)
      ensures move.Some? ==> move == KeyDirection(keyCode)
      ensures move.Some? && Bordered(data, width) && 0 <= pony < |data| ==>
                Adjacent(data, width, pony, Step(pony, move.value, width))
    {
      if completed {
        return None;
      }
      if keyCode == 37 && CanGo(data, width, pony, GoWest) {
        move := Some(GoWest);
      } else if keyCode == 38 && CanGo(data, width, pony, GoNorth) {
        move := Some(GoNorth);
      } else if keyCode == 39 && CanGo(data, width, pony, GoEast) {
        move := Some(GoEast);
      } else if keyCode == 40 && CanGo(data, width, pony, GoSouth) {
        move := Some(GoSouth);
      } else {
        return None;
      }
      if 0 <= pony < |data| {
        CanGoAgreesWithOpen(data, width, pony, move.value);
      }
    }

    /**
     * The cheat-mode path: a breadth-first search from the pony, then a walk
     * up the parent links of the node it returns, collecting every cell other
     * than the pony's and the end point's.
     */
    method SolveMaze() returns (path: seq<int>)
      requires Bordered(data, width) && 0 <= pony < |data|
      ensures InteriorOfShortestRoute(data, width, pony, endPoint, path)
      ensures path == CheatPath(data, width, pony, endPoint)
    {
      var nodes, found := Solve(data, width, pony, endPoint);
      path := Unwind(nodes, found, pony, endPoint);
      Highlighted(data, width, pony, endPoint, nodes, found, path);
    }

    /**
     * The continuation of a render request: a maze without an id is not
     * rendered; otherwise the returned state is stored, the end-of-game test
     * is applied, and the path is highlighted in cheat mode and cleared
     * otherwise.
     */
    method Render(snap: Snapshot) returns (outcome: Outcome, path: seq<int>)
      requires mazeId != "" && cheating ==> Bordered(snap.data, width) && 0 <= snap.pony < |snap.data|
      modifies this
      ensures mazeId == old(mazeId) && cheating == old(cheating)
      ensures mazeId == "" ==> unchanged(this) && outcome == Ongoing && path == []
      ensures mazeId != "" ==>
                pony == snap.pony && domokun == snap.domokun && endPoint == snap.endPoint && data == snap.data
      ensures mazeId != "" ==> outcome == Completion(snap.pony, snap.domokun, snap.endPoint)
      ensures completed <==> old(completed) || outcome != Ongoing
      ensures !cheating ==> path == []
      ensures mazeId != "" && cheating ==> InteriorOfShortestRoute(data, width, pony, endPoint, path)
      ensures mazeId != "" && cheating ==> path == CheatPath(data, width, pony, endPoint)
    {
      if mazeId == "" {
        return Ongoing, [];
      }
      pony, domokun, endPoint, data := snap.pony, snap.domokun, snap.endPoint, snap.data;
      outcome := Completion(pony, domokun, endPoint);
      if outcome == Escaped {
        MazeCompleted(true);
      } else if outcome == Eaten {
        MazeCompleted(false);
      }
      if cheating {
        path := SolveMaze();
      } else {
        path := [];
      }
    }
  }
}
