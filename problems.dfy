/** The grid search problem: discrete locations, the four cardinal actions and a
    rectangular grid whose successor relation only enters FREE cells. */
module Problems {
  import opened Prelude

  /** A 2D discrete location; `x` is the column and `y` the row. */
  datatype Location = Location(x: int, y: int)

  /** The four actions, in declaration order N, E, S, W. */
  datatype Action = N | E | S | W

  /** `list(Action)`: the declaration order, which `reverse` and `get_successors` rely on. */
  const Actions: seq<Action> := [N, E, S, W]

  /** Position of an action in `Actions`. */
  function Index(a: Action): (i: nat)
    ensures i < |Actions| && Actions[i] == a
  {
    match a
    case N => 0
    case E => 1
    case S => 2
    case W => 3
  }

  /** The `(dy, dx)` value attached to each action. */
  function Delta(a: Action): (int, int) {
    match a
    case N => (-1, 0)
    case E => (0, 1)
    case S => (1, 0)
    case W => (0, -1)
  }

  /** `Action.apply`: the location reached by moving once in direction `a`. */
  function Apply(a: Action, l: Location): Location {
    var (dy, dx) := Delta(a);
    Location(l.x + dx, l.y + dy)
  }

  /** `Action.reverse`: the action half-way round the declaration order, which pairs each
      action with its opposite direction. */
  function Reverse(a: Action): (r: Action)
    ensures a == N <==> r == S
    ensures a == E <==> r == W
    ensures a == S <==> r == N
    ensures a == W <==> r == E
    ensures r != a
  {
    Actions[(Index(a) + |Actions| / 2) % |Actions|]
  }

  /** Two locations are neighbours when they differ by one in exactly one coordinate. */
  predicate IsNeighbour(u: Location, v: Location) {
    (u.x == v.x && (v.y == u.y + 1 || v.y == u.y - 1)) ||
    (u.y == v.y && (v.x == u.x + 1 || v.x == u.x - 1))
  }

  lemma ReverseIsInvolution(a: Action)
    ensures Reverse(Reverse(a)) == a
    ensures a == N <==> Reverse(a) == S
    ensures a == E <==> Reverse(a) == W
    ensures Reverse(a) != a
  {
  }

  lemma ApplyMovesOneCell(a: Action, l: Location)
    ensures a == N ==> Apply(a, l) == Location(l.x, l.y - 1)
    ensures a == E ==> Apply(a, l) == Location(l.x + 1, l.y)
    ensures a == S ==> Apply(a, l) == Location(l.x, l.y + 1)
    ensures a == W ==> Apply(a, l) == Location(l.x - 1, l.y)
    ensures IsNeighbour(l, Apply(a, l))
  {
  }

  lemma ApplyThenReverse(a: Action, l: Location)
    ensures Apply(Reverse(a), Apply(a, l)) == l
  {
  }

  /** The action leading from `u` to its neighbour `v`. */
  function ActionTowards(u: Location, v: Location): (a: Action)
    requires IsNeighbour(u, v)
    ensures Apply(a, u) == v
  {
    if v.y == u.y - 1 then N
    else if v.x == u.x + 1 then E
    else if v.y == u.y + 1 then S
    else W
  }

  /** Cell types of a map. The map in this repository also has conveyor belts,
      which, like racks and walls, are not FREE. */
  datatype CellType = Free | Rack | Wall | Belt

  /** A successor record: the neighbour, the action that reaches it, and its cost. */
  datatype Successor = Successor(next: Location, action: Action, cost: nat)

  /** A step cost that may be infinite: Dijkstra's default for a location never reached. */
  datatype Cost = Fin(n: nat) | Inf {
    predicate Less(other: Cost) {
      match (this, other)
      case (Fin(a), Fin(b)) => a < b
      case (Fin(_), Inf) => true
      case (Inf, _) => false
    }
  }

  /** The same `Successor` record as Dijkstra stores it: predecessor and action are None
      at a seed (and in the default for a location never reached). */
  datatype Record = Record(pred: Option<Location>, action: Option<Action>, cost: Cost)

  /** `Grid2D`: the map layout (row-major), the initial states and the (unused) goals. */
  datatype Grid2D = Grid2D(grid: seq<seq<CellType>>, initial: seq<Location>, goals: seq<Location>)

  /** The layout has a first row (the source reads `grid[0]`) and all rows have its width. */
  predicate Rectangular(grid: seq<seq<CellType>>) {
    |grid| > 0 && forall i :: 0 <= i < |grid| ==> |grid[i]| == |grid[0]|
  }

  /** `Grid2D.__contains__`. */
  predicate Contains(g: Grid2D, l: Location)
    requires Rectangular(g.grid)
  {
    0 <= l.y < |g.grid| && 0 <= l.x < |g.grid[0]|
  }

  /** `Grid2D._is_free`: inside the grid and of type FREE. */
  predicate IsFree(g: Grid2D, l: Location)
    requires Rectangular(g.grid)
  {
    Contains(g, l) && g.grid[l.y][l.x] == Free
  }

  /** `Grid2D.apply`: the neighbour when it is free, otherwise nothing. */
  function GridApply(g: Grid2D, s: Location, a: Action): (r: Option<Location>)
    requires Rectangular(g.grid)
    ensures r.Some? <==> IsFree(g, Apply(a, s))
    ensures r.Some? ==> r.value == Apply(a, s)
  {
    var t := Apply(a, s);
    if IsFree(g, t) then Some(t) else None
  }

  /** `Grid2D.get_initial_state`. */
  function GetInitialState(g: Grid2D): seq<Location> {
    g.initial
  }

  /** `Grid2D._get_actions` over a given action list: those whose `apply` is not None. */
  function GetActions(g: Grid2D, s: Location, acts: seq<Action>): seq<Action>
    requires Rectangular(g.grid)
  {
    if acts == [] then []
    else (if GridApply(g, s, acts[0]).Some? then [acts[0]] else []) + GetActions(g, s, acts[1..])
  }

  /** `Grid2D.get_successors`; `_cost` between cardinal neighbours is always 1. */
  function GetSuccessors(g: Grid2D, s: Location): seq<Successor>
    requires Rectangular(g.grid)
  {
    var acts := GetActions(g, s, Actions);
    seq(|acts|, i requires 0 <= i < |acts| => Successor(Apply(acts[i], s), acts[i], 1))
  }

  /** Actions listed in strictly increasing declaration order. */
  predicate InOrder(acts: seq<Action>) {
    forall i, j :: 0 <= i < j < |acts| ==> Index(acts[i]) < Index(acts[j])
  }

  lemma GetActionsExact(g: Grid2D, s: Location, acts: seq<Action>)
    requires Rectangular(g.grid)
    ensures forall a :: a in GetActions(g, s, acts) <==> a in acts && IsFree(g, Apply(a, s))
    ensures InOrder(acts) ==> InOrder(GetActions(g, s, acts))
  {
    GetActionsMembers(g, s, acts);
    if InOrder(acts) {
      GetActionsInOrder(g, s, acts);
    }
  }

  lemma {:induction false} GetActionsMembers(g: Grid2D, s: Location, acts: seq<Action>)
    requires Rectangular(g.grid)
    ensures forall a :: a in GetActions(g, s, acts) <==> a in acts && IsFree(g, Apply(a, s))
  {
    if acts != [] {
      GetActionsMembers(g, s, acts[1..]);
      var head := if GridApply(g, s, acts[0]).Some? then [acts[0]] else [];
      assert GetActions(g, s, acts) == head + GetActions(g, s, acts[1..]);
      assert acts == [acts[0]] + acts[1..];
    }
  }

  lemma {:induction false} GetActionsInOrder(g: Grid2D, s: Location, acts: seq<Action>)
    requires Rectangular(g.grid) && InOrder(acts)
    ensures InOrder(GetActions(g, s, acts))
  {
    if acts != [] {
      assert InOrder(acts[1..]);
      GetActionsInOrder(g, s, acts[1..]);
      GetActionsMembers(g, s, acts[1..]);
      var head := if GridApply(g, s, acts[0]).Some? then [acts[0]] else [];
      var r := GetActions(g, s, acts);
      var tail := GetActions(g, s, acts[1..]);
      assert r == head + tail;
      forall i, j | 0 <= i < j < |r|
        ensures Index(r[i]) < Index(r[j])
      {
        if i < |head| {
          assert r[j] == tail[j - |head|] && tail[j - |head|] in acts[1..];
          var j' :| 0 <= j' < |acts[1..]| && acts[1..][j'] == r[j];
          assert acts[j' + 1] == r[j];
        }
      }
    }
  }

  /** `get_successors` yields exactly the free neighbours, in N, E, S, W order, each at cost 1;
      it never looks at the cell type of `s` itself. */
  lemma GetSuccessorsExact(g: Grid2D, s: Location)
    requires Rectangular(g.grid)
    ensures forall i :: 0 <= i < |GetSuccessors(g, s)| ==>
      var r := GetSuccessors(g, s)[i];
      r.next == Apply(r.action, s) && IsFree(g, r.next) && r.cost == 1
    ensures forall a :: IsFree(g, Apply(a, s)) <==>
      exists i :: 0 <= i < |GetSuccessors(g, s)| && GetSuccessors(g, s)[i].action == a
    ensures forall i, j :: 0 <= i < j < |GetSuccessors(g, s)| ==>
      Index(GetSuccessors(g, s)[i].action) < Index(GetSuccessors(g, s)[j].action)
  {
    var acts := GetActions(g, s, Actions);
    var r := GetSuccessors(g, s);
    GetActionsExact(g, s, Actions);
    forall a | IsFree(g, Apply(a, s))
      ensures exists i :: 0 <= i < |r| && r[i].action == a
    {
      assert a in Actions by { assert Actions[Index(a)] == a; }
      var i :| 0 <= i < |acts| && acts[i] == a;
      assert r[i].action == a;
    }
    assert InOrder(Actions);
  }

  /** Any free neighbour of `s` is listed among its successors. */
  lemma SuccessorOfNeighbour(g: Grid2D, s: Location, t: Location) returns (i: nat)
    requires Rectangular(g.grid)
    requires IsNeighbour(s, t) && IsFree(g, t)
    ensures i < |GetSuccessors(g, s)| && GetSuccessors(g, s)[i].next == t
  {
    GetSuccessorsExact(g, s);
    var a := ActionTowards(s, t);
    var k :| 0 <= k < |GetSuccessors(g, s)| && GetSuccessors(g, s)[k].action == a;
    i := k;
  }
}
