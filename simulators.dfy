/** The scheduler: where the cells of each type are, which package a free robot takes,
    which rest cell it heads for, the navigation policies towards belts, rests and
    packages, and one tick of the simulation loop. */
module Simulators {
  import opened Prelude
  import opened Problems
  import opened Util
  import opened Search
  import opened Models

  // ---------------------------------------------------------------------------------
  // `_get_cells`: the cells of a type, in row-major order.

  /** The cells of type `c` in row `i` from column `j` on. */
  function RowCells(grid: seq<seq<CellType>>, c: CellType, i: nat, j: nat): seq<Location>
    requires Rectangular(grid) && i < |grid| && j <= |grid[0]|
    decreases |grid[0]| - j
  {
    if j == |grid[0]| then []
    else (if grid[i][j] == c then [Location(j, i)] else []) + RowCells(grid, c, i, j + 1)
  }

  /** The cells of type `c` in rows `i` onwards. */
  function CellsFrom(grid: seq<seq<CellType>>, c: CellType, i: nat): seq<Location>
    requires Rectangular(grid) && i <= |grid|
    decreases |grid| - i
  {
    if i == |grid| then [] else RowCells(grid, c, i, 0) + CellsFrom(grid, c, i + 1)
  }

  /** `_get_cells(type_)`: `Location2D(j, i)` for every `(i, j)` of the row-major product
      of the row and column ranges whose cell has that type. */
  function GetCells(grid: seq<seq<CellType>>, c: CellType): seq<Location>
    requires Rectangular(grid)
  {
    CellsFrom(grid, c, 0)
  }

  /** Row-major order: an earlier row, or the same row and an earlier column. */
  predicate RowMajorBefore(a: Location, b: Location) {
    a.y < b.y || (a.y == b.y && a.x < b.x)
  }

  predicate RowMajor(s: seq<Location>) {
    forall i, j :: 0 <= i < j < |s| ==> RowMajorBefore(s[i], s[j])
  }

  /** `l` is a cell of the grid and has type `c`. */
  predicate IsCell(grid: seq<seq<CellType>>, c: CellType, l: Location)
    requires Rectangular(grid)
  {
    0 <= l.y < |grid| && 0 <= l.x < |grid[0]| && grid[l.y][l.x] == c
  }

  lemma RowMajorConcat(a: seq<Location>, b: seq<Location>)
    requires RowMajor(a) && RowMajor(b)
    requires forall u, v :: u in a && v in b ==> RowMajorBefore(u, v)
    ensures RowMajor(a + b)
  {
    var r := a + b;
    forall i, j | 0 <= i < j < |r| ensures RowMajorBefore(r[i], r[j]) {
      if i < |a| && j >= |a| {
        assert r[i] in a && r[j] == b[j - |a|] && r[j] in b;
      } else if i >= |a| {
        assert r[i] == b[i - |a|] && r[j] == b[j - |a|];
      }
    }
  }

  lemma {:induction false} RowCellsExact(grid: seq<seq<CellType>>, c: CellType, i: nat, j: nat)
    requires Rectangular(grid) && i < |grid| && j <= |grid[0]|
    ensures forall l :: l in RowCells(grid, c, i, j) <==> l.y == i && j <= l.x && IsCell(grid, c, l)
    ensures RowMajor(RowCells(grid, c, i, j))
    decreases |grid[0]| - j
  {
    if j < |grid[0]| {
      RowCellsExact(grid, c, i, j + 1);
      var head := if grid[i][j] == c then [Location(j, i)] else [];
      RowMajorConcat(head, RowCells(grid, c, i, j + 1));
    }
  }

  lemma {:induction false} CellsFromExact(grid: seq<seq<CellType>>, c: CellType, i: nat)
    requires Rectangular(grid) && i <= |grid|
    ensures forall l :: l in CellsFrom(grid, c, i) <==> i <= l.y && IsCell(grid, c, l)
    ensures RowMajor(CellsFrom(grid, c, i))
    decreases |grid| - i
  {
    if i < |grid| {
      RowCellsExact(grid, c, i, 0);
      CellsFromExact(grid, c, i + 1);
      RowMajorConcat(RowCells(grid, c, i, 0), CellsFrom(grid, c, i + 1));
    }
  }

  /** `_get_cells` lists exactly the cells of the type, each once, in row-major order. */
  lemma GetCellsExact(grid: seq<seq<CellType>>, c: CellType)
    requires Rectangular(grid)
    ensures forall l :: l in GetCells(grid, c) <==> IsCell(grid, c, l)
    ensures RowMajor(GetCells(grid, c)) && Distinct(GetCells(grid, c))
  {
    CellsFromExact(grid, c, 0);
    var s := GetCells(grid, c);
    forall i, j | 0 <= i < j < |s| ensures s[i] != s[j] {
      assert RowMajorBefore(s[i], s[j]);
    }
  }

  // ---------------------------------------------------------------------------------
  // The package dictionary `dict[Package, bool]`, as its items in insertion order.

  type Packages = seq<(Package, bool)>

  function Keys(d: Packages): set<Package> {
    set i | 0 <= i < |d| :: d[i].0
  }

  /** No key occurs twice, as in any dictionary. */
  predicate DistinctKeys(d: Packages) {
    forall i, j :: 0 <= i < j < |d| ==> d[i].0 != d[j].0
  }

  /** The position of key `p`, if present. */
  function KeyIndex(d: Packages, p: Package): (r: Option<nat>)
    ensures r.None? <==> p !in Keys(d)
    ensures r.Some? ==> r.value < |d| && d[r.value].0 == p
    ensures r.Some? ==> forall j :: 0 <= j < r.value ==> d[j].0 != p
  {
    if d == [] then None
    else if d[0].0 == p then Some(0)
    else
      assert forall j :: 0 < j < |d| ==> d[j] == d[1..][j - 1];
      assert Keys(d) == {d[0].0} + Keys(d[1..]);
      match KeyIndex(d[1..], p)
      case None => None
      case Some(i) => Some(i + 1)
  }

  /** `packages[p] = True`: an existing key keeps its place, a new key goes last. */
  function MarkTaken(d: Packages, p: Package): Packages {
    match KeyIndex(d, p)
    case Some(i) => d[i := (p, true)]
    case None => d + [(p, true)]
  }

  /** `del packages[p]`, which raises a KeyError when `p` is not a key. */
  function Delete(d: Packages, p: Package): Option<Packages> {
    match KeyIndex(d, p)
    case Some(i) => Some(d[..i] + d[i + 1..])
    case None => None
  }

  /** Marking a key taken keeps the keys and their order, and sets that key's value. */
  lemma MarkTakenKeeps(d: Packages, p: Package)
    requires p in Keys(d)
    ensures var r := MarkTaken(d, p);
      |r| == |d| && Keys(r) == Keys(d) && (forall i :: 0 <= i < |d| ==> r[i].0 == d[i].0) &&
      (DistinctKeys(d) ==> DistinctKeys(r) && forall i :: 0 <= i < |d| ==> (r[i].1 <==> d[i].1 || d[i].0 == p))
  {
    var i := KeyIndex(d, p).value;
    var r := MarkTaken(d, p);
    assert forall k :: 0 <= k < |d| ==> r[k].0 == d[k].0;
    assert Keys(r) == Keys(d) by {
      forall q | q in Keys(d) ensures q in Keys(r) {
        var k :| 0 <= k < |d| && d[k].0 == q;
        assert r[k].0 == q;
      }
    }
  }

  /** Deleting a key present once removes exactly that key, every other key keeping its
      value, and the untaken packages keep their order; deleting an absent key fails. */
  lemma DeleteRemoves(d: Packages, p: Package)
    requires DistinctKeys(d)
    ensures Delete(d, p).None? <==> p !in Keys(d)
    ensures Delete(d, p).Some? ==>
      var r := Delete(d, p).value;
      Keys(r) == Keys(d) - {p} && DistinctKeys(r) &&
      (forall q, b :: q != p ==> ((q, b) in r <==> (q, b) in d)) &&
      Untaken(r) == Without(Untaken(d), p)
  {
    if p in Keys(d) {
      var i := KeyIndex(d, p).value;
      DropKeys(d, i);
      DropDistinct(d, i);
      DropItems(d, i);
      DropUntaken(d, i);
    }
  }

  /** Dropping the item at `i` keeps every item with another key. */
  lemma DropItems(d: Packages, i: nat)
    requires i < |d|
    ensures forall q, b :: q != d[i].0 ==> ((q, b) in d[..i] + d[i + 1..] <==> (q, b) in d)
  {
    var r := d[..i] + d[i + 1..];
    forall q, b | q != d[i].0 ensures (q, b) in r <==> (q, b) in d {
      if (q, b) in d {
        var k :| 0 <= k < |d| && d[k] == (q, b);
        assert r[if k < i then k else k - 1] == (q, b);
      }
      if (q, b) in r {
        var k :| 0 <= k < |r| && r[k] == (q, b);
        assert d[if k < i then k else k + 1] == (q, b);
      }
    }
  }

  /** The packages of `s` other than `p`, in order. */
  function Without(s: seq<Package>, p: Package): seq<Package> {
    if s == [] then []
    else Without(s[..|s| - 1], p) + (if s[|s| - 1] == p then [] else [s[|s| - 1]])
  }

  lemma {:induction false} WithoutAppend(a: seq<Package>, b: seq<Package>, p: Package)
    ensures Without(a + b, p) == Without(a, p) + Without(b, p)
    decreases |b|
  {
    if b != [] {
      var b' := b[..|b| - 1];
      assert (a + b)[..|a + b| - 1] == a + b';
      assert b[..|b| - 1] == b';
      WithoutAppend(a, b', p);
    } else {
      assert a + b == a;
    }
  }

  /** Filtering out a package that is not a key changes nothing. */
  lemma {:induction false} WithoutAbsent(d: Packages, p: Package)
    requires p !in Keys(d)
    ensures Without(Untaken(d), p) == Untaken(d)
  {
    if d != [] {
      var d' := d[..|d| - 1];
      assert Keys(d') <= Keys(d) by {
        forall q | q in Keys(d') ensures q in Keys(d) {
          var k :| 0 <= k < |d'| && d'[k].0 == q;
          assert d[k].0 == q;
        }
      }
      WithoutAbsent(d', p);
      var last := if d[|d| - 1].1 then [] else [d[|d| - 1].0];
      WithoutAppend(Untaken(d'), last, p);
      assert Without(last, p) == last by {
        if last != [] {
          assert last[..0] == [];
        }
      }
    }
  }

  /** Dropping the item at `i` filters its key out of the untaken packages. */
  lemma {:induction false} DropUntaken(d: Packages, i: nat)
    requires DistinctKeys(d) && i < |d|
    ensures Untaken(d[..i] + d[i + 1..]) == Without(Untaken(d), d[i].0)
    decreases |d|
  {
    var p := d[i].0;
    var d' := d[..|d| - 1];
    var last := if d[|d| - 1].1 then [] else [d[|d| - 1].0];
    assert Untaken(d) == Untaken(d') + last;
    WithoutAppend(Untaken(d'), last, p);
    if i == |d| - 1 {
      assert d[..i] + d[i + 1..] == d';
      assert p !in Keys(d') by {
        forall k | 0 <= k < |d'| ensures d'[k].0 != p {
          assert d'[k] == d[k];
        }
      }
      WithoutAbsent(d', p);
      assert Without(last, p) == [] by {
        if last != [] {
          assert last[..0] == [];
        }
      }
    } else {
      var r := d[..i] + d[i + 1..];
      var r' := d'[..i] + d'[i + 1..];
      assert r[..|r| - 1] == r' && r[|r| - 1] == d[|d| - 1];
      assert Untaken(r) == Untaken(r') + last;
      assert DistinctKeys(d') by {
        forall k, k' | 0 <= k < k' < |d'| ensures d'[k].0 != d'[k'].0 {
          assert d'[k] == d[k] && d'[k'] == d[k'];
        }
      }
      assert d'[i] == d[i];
      DropUntaken(d', i);
      assert Without(last, p) == last by {
        if last != [] {
          assert last[..0] == [];
          assert d[|d| - 1].0 != p;
        }
      }
    }
  }

  /** Dropping the item at `i` of a dictionary drops its key and no other. */
  lemma DropKeys(d: Packages, i: nat)
    requires DistinctKeys(d) && i < |d|
    ensures Keys(d[..i] + d[i + 1..]) == Keys(d) - {d[i].0}
  {
    var r := d[..i] + d[i + 1..];
    forall q | q in Keys(d) - {d[i].0} ensures q in Keys(r) {
      var k :| 0 <= k < |d| && d[k].0 == q;
      assert r[if k < i then k else k - 1].0 == q;
    }
    forall q | q in Keys(r) ensures q in Keys(d) - {d[i].0} {
      var k :| 0 <= k < |r| && r[k].0 == q;
      var k' := if k < i then k else k + 1;
      assert r[k] == d[k'] && k' != i;
    }
  }

  /** Dropping an item keeps the keys distinct. */
  lemma DropDistinct(d: Packages, i: nat)
    requires DistinctKeys(d) && i < |d|
    ensures DistinctKeys(d[..i] + d[i + 1..])
  {
    var r := d[..i] + d[i + 1..];
    forall k, k' | 0 <= k < k' < |r| ensures r[k].0 != r[k'].0 {
      assert r[k] == d[if k < i then k else k + 1];
      assert r[k'] == d[if k' < i then k' else k' + 1];
    }
  }

  // ---------------------------------------------------------------------------------
  // `_get_package`: the "most transport efficient" untaken package.

  /** The untaken packages in dictionary order. */
  function Untaken(d: Packages): seq<Package> {
    if d == [] then []
    else Untaken(d[..|d| - 1]) + (if d[|d| - 1].1 then [] else [d[|d| - 1].0])
  }

  /** Positions in `d` of the entries `Untaken` keeps. */
  ghost function UntakenAt(d: Packages): seq<nat> {
    if d == [] then []
    else UntakenAt(d[..|d| - 1]) + (if d[|d| - 1].1 then [] else [|d| - 1])
  }

  lemma {:induction false} UntakenLength(d: Packages)
    ensures |UntakenAt(d)| == |Untaken(d)|
  {
    if d != [] {
      UntakenLength(d[..|d| - 1]);
    }
  }

  /** The `k`-th untaken package sits at position `UntakenAt(d)[k]` of the dictionary. */
  lemma {:induction false} UntakenEntry(d: Packages, k: nat)
    requires k < |UntakenAt(d)|
    ensures k < |Untaken(d)| && UntakenAt(d)[k] < |d| && d[UntakenAt(d)[k]] == (Untaken(d)[k], false)
  {
    var d' := d[..|d| - 1];
    UntakenLength(d');
    if k < |UntakenAt(d')| {
      UntakenEntry(d', k);
      assert UntakenAt(d)[k] == UntakenAt(d')[k] && Untaken(d)[k] == Untaken(d')[k];
      assert d[UntakenAt(d)[k]] == d'[UntakenAt(d')[k]];
    }
  }

  /** Every untaken entry of the dictionary has a rank among the untaken packages. */
  lemma {:induction false} UntakenRank(d: Packages, j: nat) returns (k: nat)
    requires j < |d| && !d[j].1
    ensures k < |UntakenAt(d)| && UntakenAt(d)[k] == j
  {
    var d' := d[..|d| - 1];
    if j == |d| - 1 {
      k := |UntakenAt(d')|;
    } else {
      assert d'[j] == d[j];
      k := UntakenRank(d', j);
      assert UntakenAt(d)[k] == UntakenAt(d')[k];
    }
  }

  /** Ranks follow dictionary order. */
  lemma {:induction false} UntakenOrdered(d: Packages, k: nat, k': nat)
    requires k < k' < |UntakenAt(d)|
    ensures UntakenAt(d)[k] < UntakenAt(d)[k']
  {
    var d' := d[..|d| - 1];
    assert UntakenAt(d)[k] == UntakenAt(d')[k];
    if k' < |UntakenAt(d')| {
      UntakenOrdered(d', k, k');
      assert UntakenAt(d)[k'] == UntakenAt(d')[k'];
    } else {
      UntakenEntry(d', k);
    }
  }

  /** `_get_package(packages, robot)`; `cost(location, package)` stands for the sum of the
      Euclidean distances robot-to-rack and rack-to-belt. */
  function GetPackage(d: Packages, robot: Location, cost: (Location, Package) -> real): Option<Package> {
    var untaken := Untaken(d);
    if untaken == [] then None
    else Some(untaken[FirstMin(untaken, cost, robot)])
  }

  /** `_get_package` returns None exactly when every package is taken; otherwise an untaken
      package of least cost, and the first such one in dictionary order. */
  lemma GetPackageSpec(d: Packages, robot: Location, cost: (Location, Package) -> real) returns (i: nat)
    ensures GetPackage(d, robot, cost).None? <==> forall j :: 0 <= j < |d| ==> d[j].1
    ensures GetPackage(d, robot, cost).Some? ==>
      var p := GetPackage(d, robot, cost).value;
      i < |d| && d[i] == (p, false) &&
      (forall j :: 0 <= j < |d| && !d[j].1 ==> cost(robot, p) <= cost(robot, d[j].0)) &&
      (forall j :: 0 <= j < i && !d[j].1 ==> cost(robot, p) < cost(robot, d[j].0))
  {
    var untaken := Untaken(d);
    var idx := UntakenAt(d);
    UntakenLength(d);
    forall j | 0 <= j < |d| && !d[j].1 ensures |untaken| > 0 {
      var k := UntakenRank(d, j);
    }
    if untaken == [] {
      i := 0;
    } else {
      var m := FirstMin(untaken, cost, robot);
      UntakenEntry(d, m);
      i := idx[m];
      forall j | 0 <= j < |d| && !d[j].1
        ensures cost(robot, untaken[m]) <= cost(robot, d[j].0)
        ensures j < i ==> cost(robot, untaken[m]) < cost(robot, d[j].0)
      {
        var k := UntakenRank(d, j);
        UntakenEntry(d, k);
        if j < i {
          if m < k {
            UntakenOrdered(d, m, k);
          }
          assert k < m;
        }
      }
    }
  }

  // ---------------------------------------------------------------------------------
  // `_get_optimal_rest`, as written.

  /** Squared Euclidean distance; the square root is monotone, so the nearest cell and the
      ties are the same. */
  function SqDist(a: Location, b: Location): int {
    (a.x - b.x) * (a.x - b.x) + (a.y - b.y) * (a.y - b.y)
  }

  /** `list.remove(x)`: drops the first occurrence; an absent value raises a ValueError. */
  function RemoveFirst(s: seq<Location>, x: Location): (r: Option<seq<Location>>)
    ensures r.None? <==> x !in s
    ensures r.Some? ==> multiset(r.value) == multiset(s) - multiset{x}
  {
    if s == [] then None
    else if s[0] == x then
      assert s == [s[0]] + s[1..];
      Some(s[1..])
    else
      assert s == [s[0]] + s[1..];
      match RemoveFirst(s[1..], x)
      case None => None
      case Some(t) => Some([s[0]] + t)
  }

  /** The key of `min` in `_get_optimal_rest`, as a real like `util.distance`. */
  function RestCost(from: Location, rest: Location): real {
    SqDist(from, rest) as real
  }

  /** The rest targets the robots hold, with multiplicity. */
  function Held(robots: seq<RobotState>): multiset<Location> {
    if robots == [] then multiset{}
    else
      var r := robots[|robots| - 1];
      Held(robots[..|robots| - 1]) + (if r.rest.Some? then multiset{r.rest.value} else multiset{})
  }

  /** The copy of the rest list after the loop that removes every held target. */
  function RemoveHeld(rests: seq<Location>, robots: seq<RobotState>): Result<seq<Location>, Error> {
    if robots == [] then Success(rests)
    else
      match RemoveHeld(rests, robots[..|robots| - 1])
      case Failure(e) => Failure(e)
      case Success(free) =>
        var r := robots[|robots| - 1];
        if r.rest.None? then Success(free)
        else match RemoveFirst(free, r.rest.value)
          case None => Failure(ValueError)
          case Some(t) => Success(t)
  }

  /** Where the distance is measured from: the closure reads the name `robot` after the loop
      has rebound it, so this is the last robot of the list (the argument only when the list
      is empty). */
  function MeasuredFrom(robots: seq<RobotState>, robot: RobotState): Location {
    if robots == [] then robot.location else robots[|robots| - 1].location
  }

  /** `_get_optimal_rest(robot)` as the source computes it, over the robots' current states. */
  function OptimalRest(rests: seq<Location>, robots: seq<RobotState>, robot: RobotState): Result<Option<Location>, Error> {
    if robot.rest.Some? || robot.location in rests then Success(None)
    else
      match RemoveHeld(rests, robots)
      case Failure(e) => Failure(e)
      case Success(free) =>
        var from := MeasuredFrom(robots, robot);
        if free == [] then Failure(ValueError)
        else Success(Some(free[FirstMin(free, RestCost, from)]))
  }

  /** The removal loop succeeds exactly when every held target can be matched with its own
      copy in the rest list, and then leaves the unmatched copies; it only raises ValueError. */
  lemma {:induction false} RemoveHeldSpec(rests: seq<Location>, robots: seq<RobotState>)
    ensures RemoveHeld(rests, robots).Success? <==> Held(robots) <= multiset(rests)
    ensures RemoveHeld(rests, robots).Success? ==>
      multiset(RemoveHeld(rests, robots).value) == multiset(rests) - Held(robots)
    ensures RemoveHeld(rests, robots).Failure? ==> RemoveHeld(rests, robots).error == ValueError
  {
    if robots != [] {
      var prefix := robots[..|robots| - 1];
      RemoveHeldSpec(rests, prefix);
      var r := robots[|robots| - 1];
      if RemoveHeld(rests, prefix).Success? && r.rest.Some? {
        var free := RemoveHeld(rests, prefix).value;
        var x := r.rest.value;
        assert Held(robots) == Held(prefix) + multiset{x};
        assert x in free <==> multiset(free)[x] > 0;
        AddOne(Held(prefix), multiset(rests), x);
      } else if RemoveHeld(rests, prefix).Failure? {
        assert Held(prefix) <= Held(robots);
      }
    }
  }

  /** One more copy of `x` fits in `b` exactly when `a` uses fewer copies than `b` has. */
  lemma AddOne(a: multiset<Location>, b: multiset<Location>, x: Location)
    requires a <= b
    ensures a + multiset{x} <= b <==> a[x] < b[x]
    ensures a[x] < b[x] ==> (b - a) - multiset{x} == b - (a + multiset{x})
  {
    if a[x] < b[x] {
      forall y ensures (a + multiset{x})[y] <= b[y] {
        if y != x { assert (a + multiset{x})[y] == a[y]; }
      }
    }
  }

  /** A robot with a target, or standing on a rest cell, gets None. Otherwise the result is
      a rest cell with a copy no robot holds, nearest (for the squared distance) to the LAST
      robot of the list among those; a ValueError is raised when a held target has no copy
      left to remove or when no copy remains unheld. */
  lemma OptimalRestSpec(rests: seq<Location>, robots: seq<RobotState>, robot: RobotState)
    ensures robot.rest.Some? || robot.location in rests ==> OptimalRest(rests, robots, robot) == Success(None)
    ensures robot.rest.None? && robot.location !in rests ==>
      (OptimalRest(rests, robots, robot).Failure? <==> !(Held(robots) < multiset(rests))) &&
      (OptimalRest(rests, robots, robot).Failure? ==> OptimalRest(rests, robots, robot).error == ValueError) &&
      (OptimalRest(rests, robots, robot).Success? ==> OptimalRest(rests, robots, robot).value.Some?)
    ensures OptimalRest(rests, robots, robot).Success? && OptimalRest(rests, robots, robot).value.Some? ==>
      var x := OptimalRest(rests, robots, robot).value.value;
      var from := MeasuredFrom(robots, robot);
      x in rests && Held(robots)[x] < multiset(rests)[x] &&
      forall y :: y in rests && Held(robots)[y] < multiset(rests)[y] ==> SqDist(from, x) <= SqDist(from, y)
  {
    RemoveHeldSpec(rests, robots);
    if robot.rest.None? && robot.location !in rests && RemoveHeld(rests, robots).Success? {
      var free := RemoveHeld(rests, robots).value;
      var m := multiset(rests) - Held(robots);
      assert free == [] <==> m == multiset{};
      assert m == multiset{} <==> !(Held(robots) < multiset(rests)) by {
        if m == multiset{} {
          forall y ensures multiset(rests)[y] <= Held(robots)[y] { assert m[y] == 0; }
        }
        if !(Held(robots) < multiset(rests)) {
          forall y ensures m[y] == 0 { }
        }
      }
      if free != [] {
        var from := MeasuredFrom(robots, robot);
        var k := FirstMin(free, RestCost, from);
        assert free[k] in multiset(free);
        forall y | y in rests && Held(robots)[y] < multiset(rests)[y] ensures SqDist(from, free[k]) <= SqDist(from, y) {
          assert y in multiset(free);
          var j :| 0 <= j < |free| && free[j] == y;
          assert RestCost(from, free[k]) <= RestCost(from, free[j]);
        }
      }
    }
  }

  /** With distinct rest cells, no robot holds the rest cell chosen. */
  lemma ChosenRestIsUnheld(rests: seq<Location>, robots: seq<RobotState>, robot: RobotState, k: nat)
    requires Distinct(rests) && k < |robots|
    requires OptimalRest(rests, robots, robot).Success? && OptimalRest(rests, robots, robot).value.Some?
    ensures robots[k].rest != OptimalRest(rests, robots, robot).value
  {
    OptimalRestSpec(rests, robots, robot);
    var x := OptimalRest(rests, robots, robot).value.value;
    DistinctCountsOnce(rests, x);
    if robots[k].rest.Some? {
      HeldIncludes(robots, k);
    }
  }

  lemma {:induction false} DistinctCountsOnce(s: seq<Location>, x: Location)
    requires Distinct(s)
    ensures multiset(s)[x] <= 1
  {
    if s != [] {
      assert s == [s[0]] + s[1..];
      assert Distinct(s[1..]) by {
        forall i, j | 0 <= i < j < |s[1..]| ensures s[1..][i] != s[1..][j] {
          assert s[1..][i] == s[i + 1] && s[1..][j] == s[j + 1];
        }
      }
      DistinctCountsOnce(s[1..], x);
      if s[0] == x {
        assert x !in s[1..];
      }
    }
  }

  lemma {:induction false} HeldIncludes(robots: seq<RobotState>, k: nat)
    requires k < |robots| && robots[k].rest.Some?
    ensures robots[k].rest.value in Held(robots)
  {
    var prefix := robots[..|robots| - 1];
    if k < |robots| - 1 {
      assert prefix[k] == robots[k];
      HeldIncludes(prefix, k);
    }
  }

  /** The distance is measured from the last robot, not from the robot asking: a robot at
      (0, 0) whose list mate stands at (10, 0) is sent to the rest cell at (9, 0) rather
      than to the one at (1, 0). */
  lemma MeasuredFromLastRobot()
    ensures var a := NewRobot(Location(0, 0));
      var b := NewRobot(Location(10, 0));
      OptimalRest([Location(1, 0), Location(9, 0)], [a, b], a) == Success(Some(Location(9, 0)))
  {
    var a := NewRobot(Location(0, 0));
    var b := NewRobot(Location(10, 0));
    var rests := [Location(1, 0), Location(9, 0)];
    assert [a, b][..1] == [a] && [a][..0] == [];
    assert RemoveHeld(rests, []) == Success(rests);
    assert RemoveHeld(rests, [a]) == Success(rests);
    assert RemoveHeld(rests, [a, b]) == Success(rests);
    assert FirstMin(rests, RestCost, Location(10, 0)) == 1 by {
      assert rests[..1] == [Location(1, 0)];
    }
  }

  // ---------------------------------------------------------------------------------
  // `_get_policies` and `_new_packages`.

  /** `policy` is the reversal of `tree`, a shortest-path tree grown from `target` alone,
      which is what `_get_policies` stores for each target. */
  ghost predicate Routes(grid: seq<seq<CellType>>, target: Location, policy: Policy, tree: Table)
    requires Rectangular(grid)
  {
    IsShortestPathTree(Grid2D(grid, [target], []), tree) && policy == ReversePolicy(tree)
  }

  /** Each target's policy together with the tree it reverses. */
  ghost predicate TargetRoutes(grid: seq<seq<CellType>>, policies: map<Location, Policy>, trees: map<Location, Table>)
    requires Rectangular(grid)
  {
    policies.Keys == trees.Keys &&
    forall t :: t in policies ==> Routes(grid, t, policies[t], trees[t])
  }

  /** Each package's policy to its rack together with the tree it reverses. */
  ghost predicate PackageRoutes(grid: seq<seq<CellType>>, policies: map<Package, Policy>, trees: map<Package, Table>)
    requires Rectangular(grid)
  {
    policies.Keys == trees.Keys &&
    forall p {:trigger p in policies} :: p in policies ==> Routes(grid, p.location, policies[p], trees[p])
  }

  /** One entry of the `_new_packages` comprehension: the policy `_get_policies` finds for the
      package's own rack, from a search seeded there alone. */
  method AddPackagePolicy(grid: seq<seq<CellType>>, policies: map<Package, Policy>, ghost trees: map<Package, Table>, p: Package)
    returns (policies': map<Package, Policy>, ghost trees': map<Package, Table>)
    requires Rectangular(grid) && PackageRoutes(grid, policies, trees)
    ensures policies'.Keys == policies.Keys + {p}
    ensures forall q :: q in policies && q != p ==> policies'[q] == policies[q]
    ensures PackageRoutes(grid, policies', trees')
  {
    var single, singleTrees := GetPolicies(grid, [p.location]);
    PackageRoutesExtend(grid, policies, trees, p, single, singleTrees);
    policies' := policies[p := single[p.location]];
    trees' := trees[p := singleTrees[p.location]];
  }

  lemma PackageRoutesExtend(grid: seq<seq<CellType>>, policies: map<Package, Policy>, trees: map<Package, Table>,
                            p: Package, single: map<Location, Policy>, singleTrees: map<Location, Table>)
    requires Rectangular(grid) && PackageRoutes(grid, policies, trees)
    requires TargetRoutes(grid, single, singleTrees) && p.location in single
    ensures PackageRoutes(grid, policies[p := single[p.location]], trees[p := singleTrees[p.location]])
  {
    var policies', trees' := policies[p := single[p.location]], trees[p := singleTrees[p.location]];
    forall q | q in policies' ensures Routes(grid, q.location, policies'[q], trees'[q]) {
      if q == p {
        assert Routes(grid, p.location, single[p.location], singleTrees[p.location]);
      } else {
        assert policies'[q] == policies[q] && trees'[q] == trees[q];
      }
    }
  }

  /** `_get_policies(targets)`: one multi-seed search over the targets, then the reversal of
      each target's own tree; `trees` names the trees. */
  method GetPolicies(grid: seq<seq<CellType>>, targets: seq<Location>) returns (policies: map<Location, Policy>, ghost trees: map<Location, Table>)
    requires Rectangular(grid)
    ensures forall t :: t in policies <==> t in targets
    ensures TargetRoutes(grid, policies, trees)
  {
    var all := MultiPolicy(Grid2D(grid, targets, []));
    policies := map t | t in targets :: ReversePolicy(all[t]);
    trees := map t | t in targets :: all[t];
  }

  /** A policy stored for a target has no action at the target itself, and following it from
      any location it knows reaches the target after finitely many moves; it knows exactly the
      locations reachable from the target through free cells. */
  lemma RouteLeadsToTarget(grid: seq<seq<CellType>>, target: Location, policy: Policy, tree: Table, l: Location)
    requires Rectangular(grid) && Routes(grid, target, policy, tree)
    ensures target in policy && policy[target].None?
    ensures l in policy ==> exists n: nat :: Walk(policy, l, n) == target
    ensures l in policy <==> exists p {:trigger IsPath(Grid2D(grid, [target], []), p)} :: IsPath(Grid2D(grid, [target], []), p) && p[|p| - 1] == l
  {
    var g := Grid2D(grid, [target], []);
    ReversedPolicyStepsBack(g, tree, target);
    RecordedIffReachable(g, tree, l);
    if l in policy {
      WalkReachesSeed(g, tree, l, tree[l].cost.n);
      assert Walk(policy, l, tree[l].cost.n) == target;
    }
  }


  /** The package dictionary `_create_packages` builds from a batch: its keys are the
      batch's packages, all untaken, in batch order. */
  function Fresh(batch: seq<Package>): (d: Packages)
    ensures |d| == |batch| && Untaken(d) == batch
    ensures Keys(d) == set p | p in batch
  {
    var d := seq(|batch|, i requires 0 <= i < |batch| => (batch[i], false));
    UnmarkedItems(batch, d);
    d
  }

  /** A dictionary holding the packages of `batch` in order, each untaken. */
  lemma {:induction false} UnmarkedItems(batch: seq<Package>, d: Packages)
    requires |d| == |batch| && forall i :: 0 <= i < |d| ==> d[i] == (batch[i], false)
    ensures Untaken(d) == batch && Keys(d) == set p | p in batch
  {
    if batch != [] {
      var prefix, d' := batch[..|batch| - 1], d[..|d| - 1];
      UnmarkedItems(prefix, d');
      assert batch == prefix + [batch[|batch| - 1]];
    }
    forall p | p in batch ensures p in Keys(d) {
      var k :| 0 <= k < |batch| && batch[k] == p;
      assert d[k].0 == p;
    }
  }

  /** `random.sample` draws distinct rack cells, so the packages of a batch have distinct
      locations. */
  predicate DistinctLocations(batch: seq<Package>) {
    forall i, j :: 0 <= i < j < |batch| ==> batch[i].location != batch[j].location
  }

  lemma FreshIsDictionary(batch: seq<Package>)
    requires DistinctLocations(batch)
    ensures DistinctKeys(Fresh(batch)) && Untaken(Fresh(batch)) == batch
    ensures forall p :: p in Keys(Fresh(batch)) <==> p in batch
  {
    var d := Fresh(batch);
    forall k, k' | 0 <= k < k' < |d| ensures d[k].0 != d[k'].0 {
      assert d[k].0 == batch[k] && d[k'].0 == batch[k'];
    }
  }


  /** `_create_robots`, given the sampled free cells: one new robot per location. */
  method CreateRobots(locations: seq<Location>) returns (robots: seq<Robot>)
    ensures |robots| == |locations| && Distinct(robots)
    ensures forall i :: 0 <= i < |robots| ==> fresh(robots[i]) && robots[i].State() == NewRobot(locations[i])
  {
    robots := [];
    for i := 0 to |locations|
      invariant |robots| == i && Distinct(robots)
      invariant forall k :: 0 <= k < i ==> fresh(robots[k]) && robots[k].State() == NewRobot(locations[k])
    {
      var robot := new Robot(locations[i]);
      robots := robots + [robot];
    }
  }

  // ---------------------------------------------------------------------------------
  // One iteration of the `while True` loop of `run`, as a function of the state.

  /** What the loop body reads besides packages and robots. */
  datatype Config = Config(
    rests: seq<Location>,
    beltPolicies: map<Location, Policy>,
    restPolicies: map<Location, Policy>,
    packagePolicies: map<Package, Policy>)

  /** What the loop body changes. */
  datatype World = World(packages: Packages, robots: seq<RobotState>)

  /** The state when the body stops, and the exception it stopped on, if any. */
  datatype Outcome = Outcome(world: World, error: Option<Error>)

  /** A new batch is due when the dictionary is empty and every robot is free. */
  predicate NewBatchDue(w: World) {
    w.packages == [] && forall k :: 0 <= k < |w.robots| ==> w.robots[k].IsFree()
  }

  /** The state after the batch test at the top of the loop body. */
  function StartOfTick(w: World, batch: seq<Package>): World {
    if NewBatchDue(w) then World(Fresh(batch), w.robots) else w
  }

  /** The assignment part for robot `i`: a free robot takes the package `_get_package` picks
      (marked taken first, then its two policies looked up), or else heads for the rest cell
      `_get_optimal_rest` picks, if any. */
  function Assign(cfg: Config, cost: (Location, Package) -> real, w: World, i: nat): (o: Outcome)
    requires i < |w.robots|
    ensures |o.world.robots| == |w.robots|
  {
    var r := w.robots[i];
    if !r.IsFree() then Outcome(w, None)
    else match GetPackage(w.packages, r.location, cost)
      case Some(p) => AssignPackage(cfg, w, i, p)
      case None => AssignRest(cfg, w, i)
  }

  /** Robot `i` takes package `p`: the package is marked taken, then its policy and the
      policy to its belt are looked up and handed to `prepare`. */
  function AssignPackage(cfg: Config, w: World, i: nat, p: Package): (o: Outcome)
    requires i < |w.robots|
    ensures |o.world.robots| == |w.robots|
  {
    var d := MarkTaken(w.packages, p);
    if p !in cfg.packagePolicies || p.destination !in cfg.beltPolicies then
      Outcome(World(d, w.robots), Some(KeyError))
    else
      Outcome(World(d, w.robots[i := w.robots[i].Prepare(p, cfg.packagePolicies[p], cfg.beltPolicies[p.destination])]), None)
  }

  /** Robot `i` heads for the rest cell `_get_optimal_rest` picks, if any. */
  function AssignRest(cfg: Config, w: World, i: nat): (o: Outcome)
    requires i < |w.robots|
    ensures |o.world.robots| == |w.robots|
  {
    match OptimalRest(cfg.rests, w.robots, w.robots[i])
    case Failure(e) => Outcome(w, Some(e))
    case Success(None) => Outcome(w, None)
    case Success(Some(rest)) =>
      if rest !in cfg.restPolicies then Outcome(w, Some(KeyError))
      else Outcome(World(w.packages, w.robots[i := w.robots[i].SetRest(rest, cfg.restPolicies[rest])]), None)
  }

  /** `AssignRest` by the outcome `r` of the rest search. */
  lemma AssignRestCases(cfg: Config, w: World, i: nat, r: Result<Option<Location>, Error>)
    requires i < |w.robots| && r == OptimalRest(cfg.rests, w.robots, w.robots[i])
    ensures r.Failure? ==> AssignRest(cfg, w, i) == Outcome(w, Some(r.error))
    ensures r == Success(None) ==> AssignRest(cfg, w, i) == Outcome(w, None)
    ensures r.Success? && r.value.Some? ==>
      var x := r.value.value;
      AssignRest(cfg, w, i) == if x in cfg.restPolicies
        then Outcome(World(w.packages, w.robots[i := w.robots[i].SetRest(x, cfg.restPolicies[x])]), None)
        else Outcome(w, Some(KeyError))
  {
  }

  /** The step part for robot `i`: a returned package is deleted from the dictionary. */
  function StepRobot(w: World, i: nat): (o: Outcome)
    requires i < |w.robots|
    ensures |o.world.robots| == |w.robots|
  {
    var stepped := w.robots[i].Step();
    AfterStep(w.packages, w.robots[i := stepped.next], stepped.result)
  }

  /** What follows `robot.step()`: its exception is raised, and a package it hands back
      is deleted from the dictionary. */
  function AfterStep(d: Packages, robots: seq<RobotState>, result: Result<Option<Package>, Error>): (o: Outcome)
    ensures o.world.robots == robots
    ensures o.error.None? <==> result.Success? && (result.value.Some? ==> Delete(d, result.value.value).Some?)
  {
    match result
    case Failure(e) => Outcome(World(d, robots), Some(e))
    case Success(None) => Outcome(World(d, robots), None)
    case Success(Some(p)) =>
      match Delete(d, p)
      case None => Outcome(World(d, robots), Some(KeyError))
      case Some(d') => Outcome(World(d', robots), None)
  }

  /** The body of the `for robot in self.robots` loop, for robot `i`. */
  function ProcessRobot(cfg: Config, cost: (Location, Package) -> real, w: World, i: nat): (o: Outcome)
    requires i < |w.robots|
    ensures |o.world.robots| == |w.robots|
  {
    var a := Assign(cfg, cost, w, i);
    if a.error.Some? then a else StepRobot(a.world, i)
  }

  /** The robots from `i` on, in list order, stopping at the first exception. The loop body
      is spelled out in three steps (the free test, the assignment, the step), so a proof
      about the loop unfolds one robot's turn only where it asks for it. */
  function TickFrom(cfg: Config, cost: (Location, Package) -> real, w: World, i: nat): (o: Outcome)
    requires i <= |w.robots|
    ensures |o.world.robots| == |w.robots|
    decreases |w.robots| - i, 3
  {
    if i == |w.robots| then Outcome(w, None) else RobotFrom(cfg, cost, w, i)
  }

  /** Robot `i`'s turn and the robots after it: a free robot is given work first. */
  function RobotFrom(cfg: Config, cost: (Location, Package) -> real, w: World, i: nat): (o: Outcome)
    requires i < |w.robots|
    ensures |o.world.robots| == |w.robots|
    decreases |w.robots| - i, 2
  {
    if w.robots[i].IsFree() then AssignedFrom(cfg, cost, w, i) else SteppedFrom(cfg, cost, w, i)
  }

  /** Free robot `i` is given a package or a rest cell, then steps, unless that raised. */
  function AssignedFrom(cfg: Config, cost: (Location, Package) -> real, w: World, i: nat): (o: Outcome)
    requires i < |w.robots|
    ensures |o.world.robots| == |w.robots|
    decreases |w.robots| - i, 1
  {
    var a := Assign(cfg, cost, w, i);
    if a.error.Some? then a else SteppedFrom(cfg, cost, a.world, i)
  }

  /** Robot `i` steps, then the robots after it take their turns, unless the step raised. */
  function SteppedFrom(cfg: Config, cost: (Location, Package) -> real, w: World, i: nat): (o: Outcome)
    requires i < |w.robots|
    ensures |o.world.robots| == |w.robots|
    decreases |w.robots| - i, 0
  {
    var o := StepRobot(w, i);
    if o.error.Some? then o else TickFrom(cfg, cost, o.world, i + 1)
  }

  /** The package robot `i` hands back this iteration, if any. */
  function PickedUp(cfg: Config, cost: (Location, Package) -> real, w: World, i: nat): Option<Package>
    requires i < |w.robots|
  {
    var a := Assign(cfg, cost, w, i);
    if a.error.Some? then None
    else match a.world.robots[i].Step().result
      case Success(Some(p)) => Some(p)
      case _ => None
  }

  // ---------------------------------------------------------------------------------
  // The simulator object.

  /** The robots' fields, as values. */
  function StatesOf(robots: seq<Robot>): (r: seq<RobotState>)
    reads robots
    ensures |r| == |robots| && forall i :: 0 <= i < |robots| ==> r[i] == robots[i].State()
  {
    if robots == [] then [] else StatesOf(robots[..|robots| - 1]) + [robots[|robots| - 1].State()]
  }

  class Simulator {
    var grid: seq<seq<CellType>>
    var belts: seq<Location>
    var rests: seq<Location>
    var beltPolicies: map<Location, Policy>
    var restPolicies: map<Location, Policy>
    var packages: Packages
    var robots: seq<Robot>
    /** `package_policies`, the local of `run` that survives from tick to tick. */
    var packagePolicies: map<Package, Policy>
    /** The shortest-path trees the three policy dictionaries reverse. */
    ghost var beltTrees: map<Location, Table>
    ghost var restTrees: map<Location, Table>
    ghost var packageTrees: map<Package, Table>

    ghost predicate Valid()
      reads this`grid, this`robots
    {
      Rectangular(grid) && Distinct(robots)
    }

    function Cfg(): Config
      reads this`rests, this`beltPolicies, this`restPolicies, this`packagePolicies
    {
      Config(rests, beltPolicies, restPolicies, packagePolicies)
    }

    function Current(): World
      reads this`packages, this`robots, robots
    {
      World(packages, StatesOf(robots))
    }

    /** `ConsoleSimulator(map_path, rests)`, given the map read from the file. */
    constructor (grid: seq<seq<CellType>>, rests: seq<Location>)
      requires Rectangular(grid)
      ensures Valid() && this.grid == grid && this.rests == rests
      ensures belts == GetCells(grid, Belt)
      ensures forall t :: t in beltPolicies <==> t in belts
      ensures TargetRoutes(grid, beltPolicies, beltTrees)
      ensures forall t :: t in restPolicies <==> t in rests
      ensures TargetRoutes(grid, restPolicies, restTrees)
      ensures packages == [] && robots == [] && packagePolicies == map[]
    {
      var cells := GetCells(grid, Belt);
      var bp, bt := GetPolicies(grid, cells);
      var rp, rt := GetPolicies(grid, rests);
      this.grid := grid;
      belts := cells;
      this.rests := rests;
      beltPolicies := bp;
      restPolicies := rp;
      beltTrees := bt;
      restTrees := rt;
      packageTrees := map[];
      packages := [];
      robots := [];
      packagePolicies := map[];
    }

    /** The start of `run`: the robots at the sampled free cells and no package policies. */
    method StartRun(locations: seq<Location>)
      requires Valid()
      modifies this
      ensures Valid() && grid == old(grid) && rests == old(rests) && belts == old(belts)
      ensures beltPolicies == old(beltPolicies) && restPolicies == old(restPolicies) && packages == old(packages)
      ensures packagePolicies == map[] && |robots| == |locations|
      ensures forall i :: 0 <= i < |robots| ==> fresh(robots[i]) && robots[i].State() == NewRobot(locations[i])
    {
      packagePolicies := map[];
      robots := CreateRobots(locations);
    }

    /** `_new_packages`, given the sampled batch: the dictionary of untaken packages and one
        policy to each package's rack. */
    method NewPackages(batch: seq<Package>) returns (policies: map<Package, Policy>, ghost trees: map<Package, Table>)
      requires Valid() && DistinctLocations(batch)
      modifies this`packages
      ensures Valid() && packages == Fresh(batch)
      ensures forall p :: p in policies <==> p in batch
      ensures PackageRoutes(grid, policies, trees)
    {
      packages := Fresh(batch);
      policies := map[];
      trees := map[];
      for i := 0 to |batch|
        invariant packages == Fresh(batch)
        invariant policies.Keys == set k | 0 <= k < i :: batch[k]
        invariant PackageRoutes(grid, policies, trees)
      {
        assert (set k | 0 <= k < i + 1 :: batch[k]) == (set k | 0 <= k < i :: batch[k]) + {batch[i]};
        policies, trees := AddPackagePolicy(grid, policies, trees, batch[i]);
      }
      forall p ensures p in policies <==> p in batch {
        if p in batch {
          var k :| 0 <= k < |batch| && batch[k] == p;
          assert p in set k | 0 <= k < |batch| :: batch[k];
        }
      }
    }

    /** `_get_optimal_rest(robot)`: the removal loop over the robots, whose loop variable
        shadows the argument. */
    method GetOptimalRest(robot: Robot) returns (r: Result<Option<Location>, Error>)
      ensures r == OptimalRest(rests, StatesOf(robots), robot.State())
    {
      if robot.rest.Some? || robot.location in rests {
        return Success(None);
      }
      ghost var states := StatesOf(robots);
      var free := rests;
      var failed := false;
      var i := 0;
      while i < |robots| && !failed
        invariant 0 <= i <= |robots|
        invariant !failed ==> RemoveHeld(rests, states[..i]) == Success(free)
        invariant failed ==> RemoveHeld(rests, states).Failure?
      {
        assert states[..i + 1][..i] == states[..i];
        var other := robots[i];
        assert states[i] == other.State();
        if other.rest.Some? {
          var remaining := RemoveFirst(free, other.rest.value);
          if remaining.None? {
            RemoveHeldFails(rests, states, i + 1);
            failed := true;
          } else {
            free := remaining.value;
          }
        }
        i := i + 1;
      }
      if failed {
        RemoveHeldSpec(rests, states);
        return Failure(ValueError);
      }
      assert states[..|robots|] == states;
      var from := if robots == [] then robot.location else robots[|robots| - 1].location;
      assert from == MeasuredFrom(states, robot.State());
      if free == [] {
        return Failure(ValueError);
      }
      return Success(Some(free[FirstMin(free, RestCost, from)]));
    }

    /** The assignment part of the loop body for robot `i`: a free robot is given the package
        `_get_package` picks, or else the rest cell `_get_optimal_rest` picks. */
    method AssignRobot(i: nat, cost: (Location, Package) -> real) returns (error: Option<Error>)
      requires Valid() && i < |robots|
      modifies this`packages, robots[i]
      ensures Valid()
      ensures Outcome(Current(), error) == Assign(Cfg(), cost, old(Current()), i)
    {
      if !robots[i].IsFree() {
        return None;
      }
      var package := GetPackage(packages, robots[i].location, cost);
      if package.Some? {
        error := GivePackage(i, package.value);
      } else {
        error := SendToRest(i);
      }
    }

    /** `self.packages[package] = True` and `robot.prepare(...)` for robot `i`. */
    method GivePackage(i: nat, p: Package) returns (error: Option<Error>)
      requires Valid() && i < |robots|
      modifies this`packages, robots[i]
      ensures Valid()
      ensures Outcome(Current(), error) == AssignPackage(Cfg(), old(Current()), i, p)
    {
      packages := MarkTaken(packages, p);
      if p !in packagePolicies || p.destination !in beltPolicies {
        return Some(KeyError);
      }
      PrepareRobot(i, p, packagePolicies[p], beltPolicies[p.destination]);
      return None;
    }

    /** `robot.prepare(...)` for robot `i`; the other robots keep their fields. */
    method PrepareRobot(i: nat, p: Package, pickup: Policy, delivery: Policy)
      requires Valid() && i < |robots|
      modifies robots[i]
      ensures Valid()
      ensures StatesOf(robots) == old(StatesOf(robots))[i := old(robots[i].State()).Prepare(p, pickup, delivery)]
    {
      var robot := robots[i];
      ghost var before := StatesOf(robots);
      ghost var state := before[i].Prepare(p, pickup, delivery);
      robot.Prepare(p, pickup, delivery);
      ghost var after := StatesOf(robots);
      forall k | 0 <= k < |robots| ensures after[k] == before[i := state][k] {
        if k != i {
          assert robots[k] != robot;
        }
      }
      assert after == before[i := state];
    }

    /** `_get_optimal_rest(robot)` and `robot.set_rest(...)` for robot `i`. */
    method SendToRest(i: nat) returns (error: Option<Error>)
      requires Valid() && i < |robots|
      modifies robots[i]
      ensures Valid()
      ensures Outcome(Current(), error) == AssignRest(Cfg(), old(Current()), i)
    {
      var robot := robots[i];
      ghost var w, cfg := Current(), Cfg();
      var rest := GetOptimalRest(robot);
      AssignRestCases(cfg, w, i, rest);
      if rest.Failure? {
        return Some(rest.error);
      }
      if rest.value.None? {
        return None;
      }
      var target := rest.value.value;
      if target !in restPolicies {
        return Some(KeyError);
      }
      SetRestRobot(i, target, restPolicies[target]);
      return None;
    }

    /** `robot.set_rest(...)` for robot `i`; the other robots keep their fields. */
    method SetRestRobot(i: nat, rest: Location, policy: Policy)
      requires Valid() && i < |robots|
      modifies robots[i]
      ensures Valid()
      ensures StatesOf(robots) == old(StatesOf(robots))[i := old(robots[i].State()).SetRest(rest, policy)]
    {
      var robot := robots[i];
      ghost var before := StatesOf(robots);
      ghost var state := before[i].SetRest(rest, policy);
      robot.SetRest(rest, policy);
      ghost var after := StatesOf(robots);
      forall k | 0 <= k < |robots| ensures after[k] == before[i := state][k] {
        if k != i {
          assert robots[k] != robot;
        }
      }
      assert after == before[i := state];
    }

    /** `robot.step()` for robot `i`, and the deletion of a package it hands back. */
    method StepOne(i: nat) returns (error: Option<Error>)
      requires Valid() && i < |robots|
      modifies this`packages, robots[i]
      ensures Valid()
      ensures Outcome(Current(), error) == StepRobot(old(Current()), i)
    {
      ghost var w := Current();
      ghost var s := w.robots[i].Step();
      assert StepRobot(w, i) == AfterStep(w.packages, w.robots[i := s.next], s.result);
      var stepped := StepRobotAt(i);
      error := AfterStepOne(w.robots[i := s.next], stepped);
    }

    /** What follows `robot.step()` in the loop body: `del self.packages[package]` for a
        returned package. */
    method AfterStepOne(ghost states: seq<RobotState>, stepped: Result<Option<Package>, Error>)
      returns (error: Option<Error>)
      requires Valid() && states == StatesOf(robots)
      modifies this`packages
      ensures Valid()
      ensures Outcome(Current(), error) == AfterStep(old(packages), states, stepped)
    {
      if stepped.Failure? {
        return Some(stepped.error);
      }
      if stepped.value.Some? {
        var remaining := Delete(packages, stepped.value.value);
        if remaining.None? {
          return Some(KeyError);
        }
        packages := remaining.value;
      }
      return None;
    }

    /** `robot.step()` for robot `i`; the other robots keep their fields. */
    method StepRobotAt(i: nat) returns (result: Result<Option<Package>, Error>)
      requires Valid() && i < |robots|
      modifies robots[i]
      ensures Valid()
      ensures StatesOf(robots) == old(StatesOf(robots))[i := old(StatesOf(robots))[i].Step().next]
      ensures result == old(StatesOf(robots))[i].Step().result
    {
      var robot := robots[i];
      ghost var before := StatesOf(robots);
      result := robot.Step();
      ghost var after := StatesOf(robots);
      forall k | 0 <= k < |robots| ensures after[k] == before[i := robot.State()][k] {
        if k != i {
          assert robots[k] != robot;
        }
      }
      assert after == before[i := robot.State()];
    }

    /** The body of the `for robot in self.robots` loop for robot `i`. */
    method HandleRobot(i: nat, cost: (Location, Package) -> real) returns (error: Option<Error>)
      requires Valid() && i < |robots|
      modifies this`packages, robots[i]
      ensures Valid()
      ensures Outcome(Current(), error) == ProcessRobot(Cfg(), cost, old(Current()), i)
    {
      error := AssignRobot(i, cost);
      if error.None? {
        error := StepOne(i);
      }
    }

    /** `HandleRobot` as one step of the loop over the robots: what remains of the iteration
        from robot `i` on either ends with its exception or goes on from robot `i + 1`. */
    method RobotTurn(i: nat, cost: (Location, Package) -> real, ghost cfg: Config) returns (error: Option<Error>)
      requires Valid() && i < |robots| && cfg == Cfg()
      modifies this`packages, robots[i]
      ensures Valid() && cfg == Cfg()
      ensures TickFrom(cfg, cost, old(Current()), i) ==
        if error.Some? then Outcome(Current(), error) else TickFrom(cfg, cost, Current(), i + 1)
    {
      ghost var before := Current();
      error := HandleRobot(i, cost);
      TickFromNext(Cfg(), cost, before, i, Current(), error);
    }

    /** The batch test at the top of the loop body: `_new_packages` when the dictionary is
        empty and every robot is free. */
    method StartTick(batch: seq<Package>)
      requires Valid() && DistinctLocations(batch)
      modifies this`packages, this`packagePolicies, this`packageTrees
      ensures Valid() && Current() == StartOfTick(old(Current()), batch)
      ensures NewBatchDue(old(Current())) ==>
        (forall p :: p in packagePolicies <==> p in batch) &&
        PackageRoutes(grid, packagePolicies, packageTrees)
      ensures !NewBatchDue(old(Current())) ==> packagePolicies == old(packagePolicies)
    {
      var allFree := forall k :: 0 <= k < |robots| ==> robots[k].IsFree();
      ghost var states := StatesOf(robots);
      forall k | 0 <= k < |robots| ensures robots[k].IsFree() <==> states[k].IsFree() {
      }
      assert packages == [] && allFree <==> NewBatchDue(World(packages, states));
      if packages == [] && allFree {
        var policies;
        ghost var trees;
        policies, trees := NewPackages(batch);
        ghost var routes := PackageRoutes(grid, policies, trees);
        packagePolicies, packageTrees := policies, trees;
        assert routes == PackageRoutes(grid, packagePolicies, packageTrees);
      }
    }

    /** The `for robot in self.robots` loop: every robot in list order, up to the first
        exception, which ends the iteration (and, uncaught, the whole `run`). */
    method RunRobots(cost: (Location, Package) -> real) returns (error: Option<Error>)
      requires Valid()
      modifies this`packages, robots
      ensures Valid()
      ensures Outcome(Current(), error) == TickFrom(Cfg(), cost, old(Current()), 0)
    {
      ghost var w0 := Current();
      ghost var cfg := Cfg();
      ghost var w := w0;
      error := None;
      var i := 0;
      while i < |robots| && error.None?
        invariant Valid() && 0 <= i <= |robots| == |w.robots| && Cfg() == cfg && w == Current()
        invariant TickFrom(cfg, cost, w0, 0) ==
          if error.Some? then Outcome(w, error) else TickFrom(cfg, cost, w, i)
      {
        error := RobotTurn(i, cost, cfg);
        w := Current();
        i := i + 1;
      }
    }

    /** One iteration of the `while True` loop of `run`, without the printing and the pause:
        a new batch when the dictionary is empty and all robots are free, then every robot
        in list order. */
    method Tick(batch: seq<Package>, cost: (Location, Package) -> real) returns (error: Option<Error>)
      requires Valid() && DistinctLocations(batch)
      modifies this`packages, this`packagePolicies, this`packageTrees, robots
      ensures Valid()
      ensures WorldOk(old(Current())) ==> WorldOk(Current())
      ensures NewBatchDue(old(Current())) ==>
        (forall p :: p in packagePolicies <==> p in batch) &&
        PackageRoutes(grid, packagePolicies, packageTrees)
      ensures !NewBatchDue(old(Current())) ==> packagePolicies == old(packagePolicies)
      ensures Outcome(Current(), error) == TickFrom(Cfg(), cost, StartOfTick(old(Current()), batch), 0)
    {
      ghost var w0 := Current();
      StartTick(batch);
      NewBatchOnlyWhenIdle(w0, batch);
      ghost var w1 := Current();
      error := RunRobots(cost);
      if WorldOk(w0) {
        TickKeepsOk(Cfg(), cost, w1, 0);
      }
    }
  }

  /** One robot further along the loop: after `ProcessRobot` takes `w` to `w'`, the rest of
      the iteration either stops with its exception or goes on from `w'` at the next robot. */
  lemma TickFromNext(cfg: Config, cost: (Location, Package) -> real, w: World, i: nat, w': World, e: Option<Error>)
    requires i < |w.robots| && Outcome(w', e) == ProcessRobot(cfg, cost, w, i)
    ensures |w'.robots| == |w.robots|
    ensures TickFrom(cfg, cost, w, i) == if e.Some? then Outcome(w', e) else TickFrom(cfg, cost, w', i + 1)
  {
    var a := Assign(cfg, cost, w, i);
    assert TickFrom(cfg, cost, w, i) == RobotFrom(cfg, cost, w, i);
    if w.robots[i].IsFree() {
      assert RobotFrom(cfg, cost, w, i) == AssignedFrom(cfg, cost, w, i);
      if a.error.None? {
        assert AssignedFrom(cfg, cost, w, i) == SteppedFrom(cfg, cost, a.world, i);
      }
    } else {
      assert a.world == w;
      assert RobotFrom(cfg, cost, w, i) == SteppedFrom(cfg, cost, w, i);
    }
  }

  // ---------------------------------------------------------------------------------
  // Properties of one iteration.

  /** The dictionary has no duplicate key and no robot is both picking up and delivering. */
  predicate WorldOk(w: World) {
    DistinctKeys(w.packages) && forall k :: 0 <= k < |w.robots| ==> w.robots[k].Valid()
  }

  /** The batch test changes nothing unless the dictionary is empty and every robot is free;
      then the dictionary holds exactly the batch, untaken and in batch order. */
  lemma NewBatchOnlyWhenIdle(w: World, batch: seq<Package>)
    requires DistinctLocations(batch)
    ensures StartOfTick(w, batch).robots == w.robots
    ensures !NewBatchDue(w) ==> StartOfTick(w, batch) == w
    ensures NewBatchDue(w) ==>
      var d := StartOfTick(w, batch).packages;
      DistinctKeys(d) && Untaken(d) == batch && forall p :: p in Keys(d) <==> p in batch
    ensures WorldOk(w) ==> WorldOk(StartOfTick(w, batch))
  {
    FreshIsDictionary(batch);
  }

  /** The assignment keeps the keys of the dictionary, and keeps the world well formed. */
  lemma AssignKeepsOk(cfg: Config, cost: (Location, Package) -> real, w: World, i: nat)
    requires i < |w.robots|
    ensures Keys(Assign(cfg, cost, w, i).world.packages) == Keys(w.packages)
    ensures WorldOk(w) ==> WorldOk(Assign(cfg, cost, w, i).world)
  {
    var r := w.robots[i];
    if r.IsFree() {
      match GetPackage(w.packages, r.location, cost)
      case Some(p) =>
        var _ := GetPackageSpec(w.packages, r.location, cost);
        MarkTakenKeeps(w.packages, p);
      case None =>
    }
  }

  /** A step, with the deletion of a package handed back, keeps the world well formed. */
  lemma StepRobotKeepsOk(w: World, i: nat)
    requires i < |w.robots| && WorldOk(w)
    ensures WorldOk(StepRobot(w, i).world)
  {
    StepKeepsValid(w.robots[i]);
    var result := w.robots[i].Step().result;
    if result.Success? && result.value.Some? {
      DeleteRemoves(w.packages, result.value.value);
    }
  }

  /** The rest of an iteration keeps the world well formed, whether or not it raises. */
  lemma {:induction false} TickKeepsOk(cfg: Config, cost: (Location, Package) -> real, w: World, i: nat)
    requires i <= |w.robots| && WorldOk(w)
    ensures WorldOk(TickFrom(cfg, cost, w, i).world)
    decreases |w.robots| - i
  {
    if i < |w.robots| {
      var a := Assign(cfg, cost, w, i);
      AssignKeepsOk(cfg, cost, w, i);
      if a.error.None? {
        StepRobotKeepsOk(a.world, i);
      }
      var o := ProcessRobot(cfg, cost, w, i);
      TickFromNext(cfg, cost, w, i, o.world, o.error);
      if o.error.None? {
        TickKeepsOk(cfg, cost, o.world, i + 1);
      }
    }
  }

  /** Robot `i`'s turn leaves every other robot as it was. */
  lemma ProcessRobotIsLocal(cfg: Config, cost: (Location, Package) -> real, w: World, i: nat)
    requires i < |w.robots|
    ensures var o := ProcessRobot(cfg, cost, w, i);
      forall k :: 0 <= k < |w.robots| && k != i ==> o.world.robots[k] == w.robots[k]
  {
  }

  /** The robots are handled in list order: the turns from `i` on leave the robots before
      `i` as they were. */
  lemma {:induction false} TickFromKeepsEarlier(cfg: Config, cost: (Location, Package) -> real, w: World, i: nat)
    requires i <= |w.robots|
    ensures forall k :: 0 <= k < i ==> TickFrom(cfg, cost, w, i).world.robots[k] == w.robots[k]
    decreases |w.robots| - i
  {
    if i < |w.robots| {
      var o := ProcessRobot(cfg, cost, w, i);
      ProcessRobotIsLocal(cfg, cost, w, i);
      TickFromNext(cfg, cost, w, i, o.world, o.error);
      if o.error.None? {
        TickFromKeepsEarlier(cfg, cost, o.world, i + 1);
      }
    }
  }

  /** A free robot facing an untaken package takes the package at index `j`: an untaken one
      of least cost from where the robot stands, the first such in dictionary order. It is
      marked taken whatever follows; the robot is then on its way to pick it up, unless one
      of the two policy lookups raises a KeyError. */
  lemma FreeRobotServed(cfg: Config, cost: (Location, Package) -> real, w: World, i: nat) returns (j: nat)
    requires i < |w.robots| && w.robots[i].IsFree() && DistinctKeys(w.packages)
    requires exists k :: 0 <= k < |w.packages| && !w.packages[k].1
    ensures j < |w.packages| && !w.packages[j].1
    ensures var p, at := w.packages[j].0, w.robots[i].location;
      (forall k :: 0 <= k < |w.packages| && !w.packages[k].1 ==> cost(at, p) <= cost(at, w.packages[k].0)) &&
      (forall k :: 0 <= k < j && !w.packages[k].1 ==> cost(at, p) < cost(at, w.packages[k].0))
    ensures var p, o := w.packages[j].0, Assign(cfg, cost, w, i);
      |o.world.packages| == |w.packages| && o.world.packages[j] == (p, true) &&
      (o.error.None? <==> p in cfg.packagePolicies && p.destination in cfg.beltPolicies) &&
      (o.error.Some? ==> o.error == Some(KeyError)) &&
      (o.error.None? ==> o.world.robots[i].package == Some(p) && o.world.robots[i].isPickingUp)
  {
    var d, at := w.packages, w.robots[i].location;
    j := GetPackageSpec(d, at, cost);
    var p := GetPackage(d, at, cost).value;
    MarkTakenKeeps(d, p);
  }

  /** A package leaves the dictionary exactly when the robot's step hands it back, at the
      end of a pickup, and the robot then carries it towards the belt; a package handed back
      that is no longer a key raises a KeyError. Without a pickup the keys stay as they are. */
  lemma PackageLeavesOnPickup(cfg: Config, cost: (Location, Package) -> real, w: World, i: nat)
    requires i < |w.robots| && WorldOk(w)
    ensures var o := ProcessRobot(cfg, cost, w, i);
      match PickedUp(cfg, cost, w, i)
      case None => Keys(o.world.packages) == Keys(w.packages)
      case Some(p) =>
        (o.error.None? <==> p in Keys(w.packages)) &&
        (o.error.None? ==> Keys(o.world.packages) == Keys(w.packages) - {p}) &&
        (o.error.Some? ==> o.error == Some(KeyError) && Keys(o.world.packages) == Keys(w.packages)) &&
        o.world.robots[i].isDelivering && o.world.robots[i].package == Some(p)
  {
    var a := Assign(cfg, cost, w, i);
    AssignKeepsOk(cfg, cost, w, i);
    if a.error.None? {
      var s := a.world.robots[i];
      var result := s.Step().result;
      if result.Success? && result.value.Some? {
        PickupCompletes(s, result.value.value);
        DeleteRemoves(a.world.packages, result.value.value);
      }
    }
  }

  /** The setting of `TwoRobotsOneRest`: one rest cell at (1, 0), a rest policy with no move
      at (0, 0), no belts and no package policies. */
  function OneRestConfig(): Config {
    Config([Location(1, 0)], map[], map[Location(1, 0) := OneRestPolicy()], map[])
  }

  function OneRestPolicy(): Policy {
    map[Location(0, 0) := None]
  }

  /** Robot 0 of the example, at (0, 0), takes the rest cell and then has no move. */
  lemma OneRestFirstTurn(cost: (Location, Package) -> real)
    ensures var a, b := NewRobot(Location(0, 0)), NewRobot(Location(2, 0));
      ProcessRobot(OneRestConfig(), cost, World([], [a, b]), 0) ==
        Outcome(World([], [a.SetRest(Location(1, 0), OneRestPolicy()), b]), None)
  {
    var a, b := NewRobot(Location(0, 0)), NewRobot(Location(2, 0));
    assert [a, b][..1] == [a] && [a][..0] == [];
    assert RemoveHeld([Location(1, 0)], [a]) == Success([Location(1, 0)]);
    assert RemoveHeld([Location(1, 0)], [a, b]) == Success([Location(1, 0)]);
  }

  /** Robot 1 then finds the only rest cell held, and `min` of the empty list raises. */
  lemma OneRestSecondTurn(cost: (Location, Package) -> real)
    ensures var a1, b := NewRobot(Location(0, 0)).SetRest(Location(1, 0), OneRestPolicy()), NewRobot(Location(2, 0));
      ProcessRobot(OneRestConfig(), cost, World([], [a1, b]), 1) ==
        Outcome(World([], [a1, b]), Some(ValueError))
  {
    var a1, b := NewRobot(Location(0, 0)).SetRest(Location(1, 0), OneRestPolicy()), NewRobot(Location(2, 0));
    assert [a1, b][..1] == [a1] && [a1][..0] == [];
    assert RemoveHeld([Location(1, 0)], [a1]) == Success([]);
    assert RemoveHeld([Location(1, 0)], [a1, b]) == Success([]);
  }

  /** A first iteration with an empty batch (`n_packages` is 0), two free robots and one
      rest cell raises: robot 0 takes the only rest cell, and the rest search for robot 1
      then finds every copy held and calls `min` on an empty list. */
  lemma TwoRobotsOneRest(cost: (Location, Package) -> real)
    ensures var a, b := NewRobot(Location(0, 0)), NewRobot(Location(2, 0));
      var w := World([], [a, b]);
      NewBatchDue(w) &&
      TickFrom(OneRestConfig(), cost, StartOfTick(w, []), 0) ==
        Outcome(World([], [a.SetRest(Location(1, 0), OneRestPolicy()), b]), Some(ValueError))
  {
    var a, b := NewRobot(Location(0, 0)), NewRobot(Location(2, 0));
    var w := World([], [a, b]);
    var w1 := World([], [a.SetRest(Location(1, 0), OneRestPolicy()), b]);
    assert Fresh([]) == [];
    assert StartOfTick(w, []) == w;
    OneRestFirstTurn(cost);
    TickFromNext(OneRestConfig(), cost, w, 0, w1, None);
    OneRestSecondTurn(cost);
    TickFromNext(OneRestConfig(), cost, w1, 1, w1, Some(ValueError));
  }

  lemma {:induction false} RemoveHeldFails(rests: seq<Location>, robots: seq<RobotState>, i: nat)
    requires i <= |robots| && RemoveHeld(rests, robots[..i]).Failure?
    ensures RemoveHeld(rests, robots) == RemoveHeld(rests, robots[..i])
    decreases |robots| - i
  {
    if i < |robots| {
      assert robots[..i + 1][..i] == robots[..i];
      RemoveHeldFails(rests, robots, i + 1);
    } else {
      assert robots[..i] == robots;
    }
  }
}
