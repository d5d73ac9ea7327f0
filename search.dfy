/** Dijkstra's algorithm from one or more seeds over a `Grid2D`, building the predecessor
    table `Location -> (pred, action, cost)`, and `MultiPolicy`, one run per seed. */
module Search {
  import opened Prelude
  import opened Problems
  import opened Util

  /** A frontier item: a location and the cost it was reached at. */
  type Item = (Location, nat)

  /** The predecessor table Dijkstra returns. */
  type Table = map<Location, Record>

  /** A path from a seed: consecutive locations are neighbours and every location after
      the seed is free. Its length (number of moves) is `|p| - 1`. */
  ghost predicate IsPath(g: Grid2D, p: seq<Location>)
    requires Rectangular(g.grid)
  {
    |p| > 0 && p[0] in g.initial &&
    forall i :: 0 < i < |p| ==> IsNeighbour(p[i - 1], p[i]) && IsFree(g, p[i])
  }

  /** Every seed is recorded with no predecessor, no action and cost 0. */
  ghost predicate SeedsAreRoots(g: Grid2D, t: Table) {
    forall s :: s in g.initial ==> s in t && t[s] == Record(None, None, Fin(0))
  }

  /** Every recorded cost is finite and at most `bound`. */
  ghost predicate Bounded(t: Table, bound: nat) {
    forall k :: k in t ==> t[k].cost.Fin? && t[k].cost.n <= bound
  }

  /** The record of a non-seed `k` names a recorded predecessor, the action that leads from
      it to `k`, and a cost one more than the predecessor's; `k` is a free cell. */
  ghost predicate LinkOk(g: Grid2D, t: Table, k: Location)
    requires Rectangular(g.grid) && k in t
  {
    var r := t[k];
    r.pred.Some? && r.action.Some? && r.pred.value in t &&
    Apply(r.action.value, r.pred.value) == k && IsFree(g, k) &&
    r.cost.Fin? && t[r.pred.value].cost.Fin? && r.cost.n == t[r.pred.value].cost.n + 1
  }

  /** All costs are finite and every non-seed record is a consistent tree link. */
  ghost predicate LinksOk(g: Grid2D, t: Table)
    requires Rectangular(g.grid)
  {
    (forall k :: k in t ==> t[k].cost.Fin?) &&
    forall k {:trigger LinkOk(g, t, k)} :: k in t && k !in g.initial ==> LinkOk(g, t, k)
  }

  /** Every location a path reaches is recorded, at a cost no greater than the path's length. */
  ghost predicate Complete(g: Grid2D, t: Table)
    requires Rectangular(g.grid)
  {
    forall p {:trigger IsPath(g, p)} :: IsPath(g, p) ==>
      p[|p| - 1] in t && t[p[|p| - 1]].cost.Fin? && t[p[|p| - 1]].cost.n <= |p| - 1
  }

  /** What `Dijkstra.run` returns: a shortest-path tree rooted at the seeds. */
  ghost predicate IsShortestPathTree(g: Grid2D, t: Table)
    requires Rectangular(g.grid)
  {
    SeedsAreRoots(g, t) && LinksOk(g, t) && Complete(g, t)
  }

  // ---------------------------------------------------------------------------------
  // Loop invariants of Dijkstra.run. With unit costs the queue behaves as a breadth-first
  // frontier: `level` is the cost last popped, every recorded cost is at most `level + 1`,
  // so a location, once recorded, is never improved again.

  /** The locations of the frontier's items. */
  ghost function QStates(q: seq<Entry<Item>>): set<Location> {
    set i | 0 <= i < |q| :: q[i].item.0
  }

  /** All successors of `k` are recorded at most one step more expensively than `k`. */
  ghost predicate Expanded(g: Grid2D, t: Table, k: Location)
    requires Rectangular(g.grid) && k in t && t[k].cost.Fin?
  {
    forall i :: 0 <= i < |GetSuccessors(g, k)| ==>
      var n := GetSuccessors(g, k)[i].next;
      n in t && t[n].cost.Fin? && t[n].cost.n <= t[k].cost.n + 1
  }

  /** A frontier entry's location is recorded at exactly the cost the entry carries. */
  ghost predicate EntryOk(t: Table, e: Entry<Item>, level: nat) {
    e.item.0 in t && t[e.item.0].cost == Fin(e.item.1) && e.priority == e.item.1 && level <= e.priority
  }

  ghost predicate Inv(g: Grid2D, t: Table, q: seq<Entry<Item>>, level: nat)
    requires Rectangular(g.grid)
  {
    SeedsAreRoots(g, t) && LinksOk(g, t) && Bounded(t, level + 1) &&
    (forall i :: 0 <= i < |q| ==> EntryOk(t, q[i], level)) &&
    (forall k :: k in t ==> k in QStates(q) || Expanded(g, t, k))
  }

  /** The invariant while the successors of `s` (popped at cost `c`) are relaxed. */
  ghost predicate InnerInv(g: Grid2D, t: Table, q: seq<Entry<Item>>, s: Location, c: nat, j: nat)
    requires Rectangular(g.grid)
  {
    SeedsAreRoots(g, t) && LinksOk(g, t) && Bounded(t, c + 1) &&
    (forall i :: 0 <= i < |q| ==> EntryOk(t, q[i], c)) &&
    s in t && t[s].cost == Fin(c) &&
    (forall k :: k in t ==> k == s || k in QStates(q) || Expanded(g, t, k)) &&
    j <= |GetSuccessors(g, s)| &&
    forall i :: 0 <= i < j ==>
      var n := GetSuccessors(g, s)[i].next;
      n in t && t[n].cost.Fin? && t[n].cost.n <= c + 1
  }

  /** The free cells of the grid: every non-seed key lies among them. */
  ghost function FreeCells(g: Grid2D): set<Location>
    requires Rectangular(g.grid)
  {
    set y: int, x: int | 0 <= y < |g.grid| && 0 <= x < |g.grid[0]| && g.grid[y][x] == Free :: Location(x, y)
  }

  lemma FreeCellsHasFree(g: Grid2D, l: Location)
    requires Rectangular(g.grid) && IsFree(g, l)
    ensures l in FreeCells(g)
  {
    assert l == Location(l.x, l.y);
  }

  lemma QStatesAppend(q: seq<Entry<Item>>, e: Entry<Item>)
    ensures QStates(q + [e]) == QStates(q) + {e.item.0}
  {
    var r := q + [e];
    assert r[|q|] == e;
    forall l | l in QStates(q) ensures l in QStates(r) {
      var i :| 0 <= i < |q| && q[i].item.0 == l;
      assert r[i] == q[i];
    }
  }

  lemma QStatesRemove(q: seq<Entry<Item>>, k: nat)
    requires k < |q|
    ensures QStates(q) <= QStates(RemoveAt(q, k)) + {q[k].item.0}
  {
    var r := RemoveAt(q, k);
    forall l | l in QStates(q) && l != q[k].item.0 ensures l in QStates(r) {
      var i :| 0 <= i < |q| && q[i].item.0 == l;
      if i < k { assert r[i] == q[i]; } else { assert r[i - 1] == q[i]; }
    }
  }

  /** After seeding the states `seeds`: each is a root at cost 0, queued at priority 0. */
  ghost predicate Seeded(seeds: seq<Location>, t: Table, q: seq<Entry<Item>>) {
    (forall k :: k in t <==> k in seeds) &&
    (forall k :: k in t ==> t[k] == Record(None, None, Fin(0))) &&
    (forall i :: 0 <= i < |q| ==> q[i].item.0 in t && q[i].item.1 == 0 && q[i].priority == 0) &&
    (forall k :: k in t ==> k in QStates(q))
  }

  /** Seeding one more state records it and appends its queue entry. */
  lemma SeededStep(seeds: seq<Location>, t: Table, q: seq<Entry<Item>>, padding: nat, s: Location)
    requires Seeded(seeds, t, q)
    ensures forall i :: 0 <= i < |q| ==> !(q[i].item == (s, 0) && 0 < q[i].priority)
    ensures Seeded(seeds + [s], t[s := Record(None, None, Fin(0))], q + [Entry(0, padding, (s, 0))])
  {
    QStatesAppend(q, Entry(0, padding, (s, 0)));
  }

  lemma SeedsEstablish(g: Grid2D, t: Table, q: seq<Entry<Item>>)
    requires Rectangular(g.grid) && Seeded(g.initial, t, q)
    ensures Inv(g, t, q, 0)
  {
  }

  /** Popping the least entry starts the relaxation of its location. */
  lemma PopStarts(g: Grid2D, t: Table, q: seq<Entry<Item>>, level: nat)
    requires Rectangular(g.grid) && Inv(g, t, q, level) && q != []
    ensures var e := q[MinIndex(q, |q|)];
      level <= e.item.1 && InnerInv(g, t, RemoveAt(q, MinIndex(q, |q|)), e.item.0, e.item.1, 0)
  {
    var k := MinIndex(q, |q|);
    var e := q[k];
    var r := RemoveAt(q, k);
    assert EntryOk(t, e, level);
    forall i | 0 <= i < |r| ensures EntryOk(t, r[i], e.item.1) {
      var i' := if i < k then i else i + 1;
      assert r[i] == q[i'] && !Precedes(q[i'], e) && EntryOk(t, q[i'], level);
    }
    QStatesRemove(q, k);
  }

  /** Adding a record for a new location keeps every expanded location expanded. */
  lemma ExpandedGrows(g: Grid2D, t: Table, l: Location, r: Record, k: Location)
    requires Rectangular(g.grid) && l !in t && k in t && t[k].cost.Fin? && Expanded(g, t, k)
    ensures Expanded(g, t[l := r], k)
  {
  }

  /** Relaxing the `j`-th successor of `s`: recorded already (at most one step more than
      `s`, so not improved), or recorded now as a child of `s` and pushed onto the frontier. */
  lemma RelaxNew(g: Grid2D, t: Table, q: seq<Entry<Item>>, s: Location, c: nat, j: nat, pad: nat,
                 keys0: set<Location>)
    requires Rectangular(g.grid) && InnerInv(g, t, q, s, c, j) && j < |GetSuccessors(g, s)|
    requires GetSuccessors(g, s)[j].next !in t
    requires keys0 <= t.Keys
    requires t.Keys == keys0 || |FreeCells(g) - t.Keys| < |FreeCells(g) - keys0|
    ensures var succ := GetSuccessors(g, s)[j];
      var t' := t[succ.next := Record(Some(s), Some(succ.action), Fin(c + 1))];
      Updated(q, pad, (succ.next, c + 1), c + 1) == (q + [Entry(c + 1, pad, (succ.next, c + 1))], pad + 1) &&
      InnerInv(g, t', q + [Entry(c + 1, pad, (succ.next, c + 1))], s, c, j + 1) &&
      |FreeCells(g) - t'.Keys| < |FreeCells(g) - keys0|
  {
    var succ := GetSuccessors(g, s)[j];
    SuccessorFacts(g, s, j);
    NotQueued(t, q, c, succ.next);
    UpdateInserts(q, pad, (succ.next, c + 1), c + 1);
    MeasureShrinks(g, keys0, t.Keys, succ.next);
    var t' := t[succ.next := Record(Some(s), Some(succ.action), Fin(c + 1))];
    assert t'.Keys == t.Keys + {succ.next};
    RelaxNewKeepsInv(g, t, q, s, c, j, pad);
  }

  /** The invariant part of `RelaxNew`. */
  lemma RelaxNewKeepsInv(g: Grid2D, t: Table, q: seq<Entry<Item>>, s: Location, c: nat, j: nat, pad: nat)
    requires Rectangular(g.grid) && InnerInv(g, t, q, s, c, j) && j < |GetSuccessors(g, s)|
    requires GetSuccessors(g, s)[j].next !in t
    ensures var succ := GetSuccessors(g, s)[j];
      InnerInv(g, t[succ.next := Record(Some(s), Some(succ.action), Fin(c + 1))],
               q + [Entry(c + 1, pad, (succ.next, c + 1))], s, c, j + 1)
  {
    SuccessorFacts(g, s, j);
    RelaxNewLinks(g, t, s, c, j);
    RelaxNewExpanded(g, t, q, s, c, j, pad);
    RelaxNewEntries(g, t, q, s, c, j, pad);
  }

  /** Recording a new child of `s` keeps the seeds as roots and every link consistent. */
  lemma RelaxNewLinks(g: Grid2D, t: Table, s: Location, c: nat, j: nat)
    requires Rectangular(g.grid) && SeedsAreRoots(g, t) && LinksOk(g, t) && s in t && t[s].cost == Fin(c)
    requires j < |GetSuccessors(g, s)| && GetSuccessors(g, s)[j].next !in t
    ensures var succ := GetSuccessors(g, s)[j];
      var t' := t[succ.next := Record(Some(s), Some(succ.action), Fin(c + 1))];
      SeedsAreRoots(g, t') && LinksOk(g, t')
  {
    var succ := GetSuccessors(g, s)[j];
    SuccessorFacts(g, s, j);
    var t' := t[succ.next := Record(Some(s), Some(succ.action), Fin(c + 1))];
    assert LinkOk(g, t', succ.next);
    forall k | k in t' && k !in g.initial ensures LinkOk(g, t', k) {
      if k != succ.next { assert LinkOk(g, t, k); }
    }
  }

  /** Recording and queueing a new child keeps every other location queued or expanded. */
  lemma RelaxNewExpanded(g: Grid2D, t: Table, q: seq<Entry<Item>>, s: Location, c: nat, j: nat, pad: nat)
    requires Rectangular(g.grid) && InnerInv(g, t, q, s, c, j) && j < |GetSuccessors(g, s)|
    requires GetSuccessors(g, s)[j].next !in t
    ensures var succ := GetSuccessors(g, s)[j];
      var t' := t[succ.next := Record(Some(s), Some(succ.action), Fin(c + 1))];
      var q' := q + [Entry(c + 1, pad, (succ.next, c + 1))];
      forall k :: k in t' ==> k == s || k in QStates(q') || Expanded(g, t', k)
  {
    var succ := GetSuccessors(g, s)[j];
    var t' := t[succ.next := Record(Some(s), Some(succ.action), Fin(c + 1))];
    var q' := q + [Entry(c + 1, pad, (succ.next, c + 1))];
    QStatesAppend(q, Entry(c + 1, pad, (succ.next, c + 1)));
    forall k | k in t' ensures k == s || k in QStates(q') || Expanded(g, t', k) {
      if k != succ.next && k != s && k !in QStates(q) {
        ExpandedGrows(g, t, succ.next, Record(Some(s), Some(succ.action), Fin(c + 1)), k);
      }
    }
  }

  /** The new entry carries the new child's cost; the old entries keep theirs. */
  lemma RelaxNewEntries(g: Grid2D, t: Table, q: seq<Entry<Item>>, s: Location, c: nat, j: nat, pad: nat)
    requires Rectangular(g.grid) && j < |GetSuccessors(g, s)| && GetSuccessors(g, s)[j].next !in t
    requires forall i :: 0 <= i < |q| ==> EntryOk(t, q[i], c)
    ensures var succ := GetSuccessors(g, s)[j];
      var t' := t[succ.next := Record(Some(s), Some(succ.action), Fin(c + 1))];
      var q' := q + [Entry(c + 1, pad, (succ.next, c + 1))];
      forall i :: 0 <= i < |q'| ==> EntryOk(t', q'[i], c)
  {
    var succ := GetSuccessors(g, s)[j];
    var t' := t[succ.next := Record(Some(s), Some(succ.action), Fin(c + 1))];
    var q' := q + [Entry(c + 1, pad, (succ.next, c + 1))];
    forall i | 0 <= i < |q'| ensures EntryOk(t', q'[i], c) {
      if i < |q| { assert q'[i] == q[i] && EntryOk(t, q[i], c); }
    }
  }

  /** A successor recorded already is not improved: its cost is at most `c + 1`. */
  lemma NotImproved(g: Grid2D, t: Table, q: seq<Entry<Item>>, s: Location, c: nat, j: nat)
    requires Rectangular(g.grid) && InnerInv(g, t, q, s, c, j) && j < |GetSuccessors(g, s)|
    ensures GetSuccessors(g, s)[j].next in t ==> !Fin(c + 1).Less(t[GetSuccessors(g, s)[j].next].cost)
  {
  }

  /** A successor recorded already is relaxed without change. */
  lemma RelaxOld(g: Grid2D, t: Table, q: seq<Entry<Item>>, s: Location, c: nat, j: nat)
    requires Rectangular(g.grid) && InnerInv(g, t, q, s, c, j) && j < |GetSuccessors(g, s)|
    requires GetSuccessors(g, s)[j].next in t
    ensures InnerInv(g, t, q, s, c, j + 1)
  {
  }

  /** Recording a new free cell shrinks the set of free cells not yet recorded. */
  lemma MeasureShrinks(g: Grid2D, keys0: set<Location>, keys: set<Location>, l: Location)
    requires Rectangular(g.grid) && IsFree(g, l) && l !in keys && keys0 <= keys
    requires keys == keys0 || |FreeCells(g) - keys| < |FreeCells(g) - keys0|
    ensures |FreeCells(g) - (keys + {l})| < |FreeCells(g) - keys0|
  {
    FreeCellsHasFree(g, l);
    assert FreeCells(g) - (keys + {l}) == (FreeCells(g) - keys) - {l};
  }

  /** Once all successors of `s` are relaxed, `s` is expanded. */
  lemma RelaxDone(g: Grid2D, t: Table, q: seq<Entry<Item>>, s: Location, c: nat)
    requires Rectangular(g.grid) && InnerInv(g, t, q, s, c, |GetSuccessors(g, s)|)
    ensures Inv(g, t, q, c)
  {
    assert Expanded(g, t, s);
  }

  /** With the frontier empty, every location is expanded, so every path is covered. */
  lemma {:induction false} PathCovered(g: Grid2D, t: Table, p: seq<Location>)
    requires Rectangular(g.grid) && SeedsAreRoots(g, t)
    requires (forall k :: k in t ==> t[k].cost.Fin?) && forall k :: k in t ==> Expanded(g, t, k)
    requires IsPath(g, p)
    ensures p[|p| - 1] in t && t[p[|p| - 1]].cost.Fin? && t[p[|p| - 1]].cost.n <= |p| - 1
  {
    if |p| > 1 {
      var p' := p[..|p| - 1];
      assert IsPath(g, p') by {
        forall i | 0 < i < |p'| ensures IsNeighbour(p'[i - 1], p'[i]) && IsFree(g, p'[i]) {
          assert p'[i - 1] == p[i - 1] && p'[i] == p[i];
        }
      }
      PathCovered(g, t, p');
      var u, v := p[|p| - 2], p[|p| - 1];
      assert u == p'[|p'| - 1];
      assert IsNeighbour(u, v) && IsFree(g, v);
      var i := SuccessorOfNeighbour(g, u, v);
      assert Expanded(g, t, u);
    }
  }

  lemma Finishes(g: Grid2D, t: Table, level: nat)
    requires Rectangular(g.grid) && Inv(g, t, [], level)
    ensures IsShortestPathTree(g, t)
  {
    assert QStates([]) == {};
    forall p {:trigger IsPath(g, p)} | IsPath(g, p)
      ensures p[|p| - 1] in t && t[p[|p| - 1]].cost.Fin? && t[p[|p| - 1]].cost.n <= |p| - 1
    {
      PathCovered(g, t, p);
    }
  }

  /** The seeding loop of `Dijkstra.run`: every initial state is recorded as a root at
      cost 0 and queued with priority 0. */
  method Seed(problem: Grid2D, frontier: PriorityQueue<Item>) returns (policy: Table)
    requires Rectangular(problem.grid) && frontier.Valid() && frontier.entries == []
    modifies frontier
    ensures frontier.Valid() && Inv(problem, policy, frontier.entries, 0)
    ensures Seeded(problem.initial, policy, frontier.entries)
  {
    policy := map[];
    var seeds := GetInitialState(problem);
    for i := 0 to |seeds|
      invariant frontier.Valid() && Seeded(seeds[..i], policy, frontier.entries)
    {
      var state := seeds[i];
      SeededStep(seeds[..i], policy, frontier.entries, frontier.padding, state);
      UpdateInserts(frontier.entries, frontier.padding, (state, 0), 0);
      policy := policy[state := Record(None, None, Fin(0))];
      frontier.Update((state, 0), 0);
      assert seeds[..i + 1] == seeds[..i] + [state];
    }
    assert seeds[..|seeds|] == seeds;
    SeedsEstablish(problem, policy, frontier.entries);
  }

  /** The inner `for` loop of `Dijkstra.run`: relaxes every successor of `state`, popped
      at `cost`. */
  method Relax(problem: Grid2D, policy0: Table, frontier: PriorityQueue<Item>, state: Location, cost: nat)
    returns (policy: Table)
    requires Rectangular(problem.grid) && frontier.Valid()
    requires InnerInv(problem, policy0, frontier.entries, state, cost, 0)
    modifies frontier
    ensures frontier.Valid() && Inv(problem, policy, frontier.entries, cost)
    ensures policy0.Keys <= policy.Keys
    ensures (policy.Keys == policy0.Keys && |frontier.entries| == old(|frontier.entries|)) ||
      |FreeCells(problem) - policy.Keys| < |FreeCells(problem) - policy0.Keys|
  {
    policy := policy0;
    var successors := GetSuccessors(problem, state);
    for j := 0 to |successors|
      invariant frontier.Valid()
      invariant InnerInv(problem, policy, frontier.entries, state, cost, j)
      invariant policy0.Keys <= policy.Keys
      invariant (policy.Keys == policy0.Keys && |frontier.entries| == old(|frontier.entries|)) ||
        |FreeCells(problem) - policy.Keys| < |FreeCells(problem) - policy0.Keys|
    {
      policy := RelaxOne(problem, policy, frontier, state, cost, j, successors[j], policy0.Keys);
    }
    RelaxDone(problem, policy, frontier.entries, state, cost);
  }

  /** One iteration of that loop, for the successor `(next, action, act_cost)`. A successor
      is recorded (and pushed) only when its recorded cost, infinite when absent as the
      `defaultdict` supplies, is beaten by `cost + act_cost`. */
  method RelaxOne(problem: Grid2D, policy0: Table, frontier: PriorityQueue<Item>, state: Location,
                  cost: nat, j: nat, succ: Successor, ghost keys0: set<Location>)
    returns (policy: Table)
    requires Rectangular(problem.grid) && frontier.Valid()
    requires InnerInv(problem, policy0, frontier.entries, state, cost, j)
    requires j < |GetSuccessors(problem, state)| && succ == GetSuccessors(problem, state)[j]
    requires keys0 <= policy0.Keys
    requires policy0.Keys == keys0 || |FreeCells(problem) - policy0.Keys| < |FreeCells(problem) - keys0|
    modifies frontier
    ensures frontier.Valid() && InnerInv(problem, policy, frontier.entries, state, cost, j + 1)
    ensures policy0.Keys <= policy.Keys
    ensures (policy.Keys == policy0.Keys && frontier.entries == old(frontier.entries)) ||
      |FreeCells(problem) - policy.Keys| < |FreeCells(problem) - keys0|
    ensures var c0 := if succ.next in policy0 then policy0[succ.next].cost else Inf;
      var total := cost + succ.cost;
      if Fin(total).Less(c0) then
        policy == policy0[succ.next := Record(Some(state), Some(succ.action), Fin(total))] &&
        frontier.entries == old(frontier.entries) + [Entry(total, old(frontier.padding), (succ.next, total))] &&
        frontier.padding == old(frontier.padding) + 1
      else
        policy == policy0 && frontier.entries == old(frontier.entries) && frontier.padding == old(frontier.padding)
  {
    policy := policy0;
    var Successor(next, action, actCost) := succ;
    SuccessorFacts(problem, state, j);
    var total := cost + actCost;
    // The `defaultdict` lookup: a location never reached reads as infinitely far. The
    // default it inserts is always overwritten, since any finite cost beats it.
    var current := if next in policy then policy[next] else Record(None, None, Inf);
    NotImproved(problem, policy0, frontier.entries, state, cost, j);
    if Fin(total).Less(current.cost) {
      policy := policy[next := Record(Some(state), Some(action), Fin(total))];
      ghost var q, pad := frontier.entries, frontier.padding;
      RelaxNew(problem, policy0, q, state, cost, j, pad, keys0);
      frontier.Update((next, total), total);
      assert frontier.entries == q + [Entry(total, pad, (next, total))];
    } else {
      RelaxOld(problem, policy0, frontier.entries, state, cost, j);
    }
  }

  lemma SuccessorFacts(g: Grid2D, s: Location, j: nat)
    requires Rectangular(g.grid) && j < |GetSuccessors(g, s)|
    ensures var succ := GetSuccessors(g, s)[j];
      succ.cost == 1 && IsFree(g, succ.next) && Apply(succ.action, s) == succ.next
  {
    GetSuccessorsExact(g, s);
  }

  /** A location not yet recorded has no frontier entry, so `update` cannot lower one. */
  lemma NotQueued(t: Table, q: seq<Entry<Item>>, level: nat, l: Location)
    requires forall i :: 0 <= i < |q| ==> EntryOk(t, q[i], level)
    requires l !in t
    ensures forall i :: 0 <= i < |q| ==> q[i].item.0 != l
  {
  }

  /** `Dijkstra.run`: seeds every initial state at cost 0, then pops the frontier until it
      is empty, relaxing the successors of each popped state. */
  method Dijkstra(problem: Grid2D) returns (policy: Table)
    requires Rectangular(problem.grid)
    ensures IsShortestPathTree(problem, policy)
  {
    var frontier := new PriorityQueue<Item>();
    policy := Seed(problem, frontier);
    ghost var level: nat := 0;
    while frontier.IsNonEmpty()
      invariant frontier.Valid()
      invariant Inv(problem, policy, frontier.entries, level)
      decreases |FreeCells(problem) - policy.Keys|, |frontier.entries|
    {
      PopStarts(problem, policy, frontier.entries, level);
      var item := frontier.Pop();
      var (state, cost) := item;
      level := cost;
      policy := Relax(problem, policy, frontier, state, cost);
    }
    Finishes(problem, policy, level);
  }

  // ---------------------------------------------------------------------------------
  // What a shortest-path tree gives: paths back to a seed, exact shortest costs, and a
  // reversed policy that leads every recorded location to a seed.

  /** Every recorded location is reached by a path from a seed whose length is its cost. */
  lemma {:induction false} TraceBack(g: Grid2D, t: Table, k: Location) returns (p: seq<Location>)
    requires Rectangular(g.grid) && SeedsAreRoots(g, t) && LinksOk(g, t) && k in t
    ensures IsPath(g, p) && p[|p| - 1] == k && |p| - 1 == t[k].cost.n
    decreases t[k].cost.n
  {
    if k in g.initial {
      p := [k];
    } else {
      assert LinkOk(g, t, k);
      var u := t[k].pred.value;
      var p' := TraceBack(g, t, u);
      ApplyMovesOneCell(t[k].action.value, u);
      p := p' + [k];
      assert forall i :: 0 <= i < |p'| ==> p[i] == p'[i];
    }
  }

  /** The recorded cost of a location is the length of a shortest path to it: some path is
      that long, and none is shorter. */
  lemma CostIsShortest(g: Grid2D, t: Table, k: Location, q: seq<Location>) returns (p: seq<Location>)
    requires Rectangular(g.grid) && IsShortestPathTree(g, t) && k in t
    requires IsPath(g, q) && q[|q| - 1] == k
    ensures IsPath(g, p) && p[|p| - 1] == k && |p| - 1 == t[k].cost.n
    ensures t[k].cost.n <= |q| - 1
  {
    p := TraceBack(g, t, k);
  }

  /** A location is recorded exactly when some path from a seed reaches it. */
  lemma RecordedIffReachable(g: Grid2D, t: Table, k: Location)
    requires Rectangular(g.grid) && IsShortestPathTree(g, t)
    ensures k in t <==> exists p {:trigger IsPath(g, p)} :: IsPath(g, p) && p[|p| - 1] == k
  {
    if k in t {
      var p := TraceBack(g, t, k);
    }
  }

  /** Two shortest-path trees for the same problem record the same locations at the same
      costs; only the choice among equally short predecessors may differ. */
  lemma TreesAgree(g: Grid2D, t1: Table, t2: Table)
    requires Rectangular(g.grid) && IsShortestPathTree(g, t1) && IsShortestPathTree(g, t2)
    ensures t1.Keys == t2.Keys
    ensures forall k :: k in t1 ==> t1[k].cost == t2[k].cost
  {
    forall k | k in t1 ensures k in t2 && t1[k].cost == t2[k].cost {
      var p1 := TraceBack(g, t1, k);
      var p2 := TraceBack(g, t2, k);
    }
    forall k | k in t2 ensures k in t1 {
      var p2 := TraceBack(g, t2, k);
    }
  }

  /** Reversing a shortest-path tree gives, at every non-seed, the action back to its
      predecessor (one step closer to a seed), and None exactly at the seeds. */
  lemma ReversedPolicyStepsBack(g: Grid2D, t: Table, k: Location)
    requires Rectangular(g.grid) && SeedsAreRoots(g, t) && LinksOk(g, t) && k in t
    ensures k in ReversePolicy(t)
    ensures ReversePolicy(t)[k].None? <==> k in g.initial
    ensures ReversePolicy(t)[k].Some? ==>
      LinkOk(g, t, k) &&
      var n := Apply(ReversePolicy(t)[k].value, k);
      n == t[k].pred.value && n in t && t[n].cost.n + 1 == t[k].cost.n
  {
    var r := ReversePolicy(t);
    if k !in g.initial {
      assert LinkOk(g, t, k);
      var a := t[k].action.value;
      ReverseIsInvolution(a);
      assert r[k] == Some(Reverse(a));
      ApplyThenReverse(a, t[k].pred.value);
    }
  }

  /** Following a navigation policy for at most `n` moves; the walk stops where the policy
      has nothing (a missing key or None). */
  function Walk(policy: Policy, l: Location, n: nat): Location
    decreases n
  {
    if n == 0 || l !in policy || policy[l].None? then l
    else Walk(policy, Apply(policy[l].value, l), n - 1)
  }

  /** Following the reversed tree from a recorded location for its cost in moves ends on a
      seed: this is how a robot is routed to a target with a reversed single-seed run. */
  lemma {:induction false} WalkReachesSeed(g: Grid2D, t: Table, k: Location, c: nat)
    requires Rectangular(g.grid) && SeedsAreRoots(g, t) && LinksOk(g, t) && k in t && t[k].cost == Fin(c)
    ensures Walk(ReversePolicy(t), k, c) in g.initial
    decreases c
  {
    ReversedPolicyStepsBack(g, t, k);
    var r := ReversePolicy(t);
    if r[k].Some? {
      var n := Apply(r[k].value, k);
      WalkReachesSeed(g, t, n, c - 1);
      WalkOneMove(r, k, c - 1);
    }
  }

  /** A walk with moves left takes the policy's action first. */
  lemma WalkOneMove(policy: Policy, l: Location, n: nat)
    requires l in policy && policy[l].Some?
    ensures Walk(policy, l, n + 1) == Walk(policy, Apply(policy[l].value, l), n)
  {
  }

  /** `MultiPolicy.run`: one single-seed Dijkstra run on the same grid per initial state
      (a repeated initial state keeps the last, identical, run). */
  method MultiPolicy(problem: Grid2D) returns (policies: map<Location, Table>)
    requires Rectangular(problem.grid)
    ensures forall s :: s in policies <==> s in problem.initial
    ensures SingleSeedTrees(problem.grid, policies)
  {
    policies := map[];
    var seeds := GetInitialState(problem);
    for i := 0 to |seeds|
      invariant forall s :: s in policies <==> s in seeds[..i]
      invariant SingleSeedTrees(problem.grid, policies)
    {
      var policy := Dijkstra(Grid2D(problem.grid, [seeds[i]], []));
      SingleSeedTreesExtend(problem.grid, policies, seeds[i], policy);
      policies := policies[seeds[i] := policy];
      assert seeds[..i + 1] == seeds[..i] + [seeds[i]];
    }
    assert seeds[..|seeds|] == seeds;
  }

  /** Each seed's table is a shortest-path tree of a search from that seed alone. */
  ghost predicate SingleSeedTrees(grid: seq<seq<CellType>>, trees: map<Location, Table>)
    requires Rectangular(grid)
  {
    forall s :: s in trees ==> IsShortestPathTree(Grid2D(grid, [s], []), trees[s])
  }

  lemma SingleSeedTreesExtend(grid: seq<seq<CellType>>, trees: map<Location, Table>, s: Location, t: Table)
    requires Rectangular(grid) && SingleSeedTrees(grid, trees)
    requires IsShortestPathTree(Grid2D(grid, [s], []), t)
    ensures SingleSeedTrees(grid, trees[s := t])
  {
    forall s' | s' in trees[s := t] ensures IsShortestPathTree(Grid2D(grid, [s'], []), trees[s := t][s']) {
      if s' != s {
        assert trees[s := t][s'] == trees[s'];
      }
    }
  }

}
