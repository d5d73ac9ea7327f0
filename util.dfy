/** The priority queue with decrease-key that Dijkstra's algorithm uses, and the reversal
    of a predecessor table into a navigation policy. */
module Util {
  import opened Prelude
  import opened Problems

  /** One `(priority, padding, item)` tuple of the queue list; `padding` is the insertion
      counter value that breaks ties between equal priorities. */
  datatype Entry<T> = Entry(priority: int, padding: nat, item: T)

  /** Tuple order on `(priority, padding)`: the order `heapq` compares entries in. */
  predicate Precedes<T>(a: Entry<T>, b: Entry<T>) {
    a.priority < b.priority || (a.priority == b.priority && a.padding < b.padding)
  }

  /** An entry that `update(item, priority)` would lower. */
  predicate Lowerable<T(==)>(e: Entry<T>, item: T, priority: int) {
    e.item == item && priority < e.priority
  }

  /** The index of the first entry the scan in `update` stops at, if any. */
  function FirstLowerable<T(==)>(s: seq<Entry<T>>, item: T, priority: int): (r: Option<nat>)
    ensures r.None? <==> forall i :: 0 <= i < |s| ==> !Lowerable(s[i], item, priority)
    ensures r.Some? ==> r.value < |s| && Lowerable(s[r.value], item, priority)
    ensures r.Some? ==> forall i :: 0 <= i < r.value ==> !Lowerable(s[i], item, priority)
  {
    if s == [] then None
    else if Lowerable(s[0], item, priority) then Some(0)
    else match FirstLowerable(s[1..], item, priority)
      case None => None
      case Some(i) => Some(i + 1)
  }

  /** The entry list without its `k`-th entry. */
  function RemoveAt<T>(s: seq<T>, k: nat): (r: seq<T>)
    requires k < |s|
    ensures |r| == |s| - 1
    ensures forall i :: 0 <= i < k ==> r[i] == s[i]
    ensures forall i :: k <= i < |r| ==> r[i] == s[i + 1]
  {
    s[..k] + s[k + 1..]
  }

  /** The queue list and counter after `update(item, priority)`: the first entry holding
      `item` at a strictly higher priority is lowered, keeping its padding; when there is none
      (the for-else), a new entry is added under the current counter, which then advances. */
  function Updated<T(==)>(s: seq<Entry<T>>, padding: nat, item: T, priority: int): (seq<Entry<T>>, nat) {
    match FirstLowerable(s, item, priority)
    case Some(i) => (RemoveAt(s, i) + [Entry(priority, s[i].padding, item)], padding)
    case None => (s + [Entry(priority, padding, item)], padding + 1)
  }

  /** The index of the least entry of `s[..n]` in `Precedes` order. */
  function MinIndex<T>(s: seq<Entry<T>>, n: nat): (k: nat)
    requires 0 < n <= |s|
    ensures k < n
    ensures forall j :: 0 <= j < n ==> !Precedes(s[j], s[k])
  {
    if n == 1 then 0
    else
      var k' := MinIndex(s, n - 1);
      if Precedes(s[n - 1], s[k']) then n - 1 else k'
  }

  /** Paddings are below the counter and pairwise distinct. */
  ghost predicate ValidEntries<T>(s: seq<Entry<T>>, padding: nat) {
    (forall i :: 0 <= i < |s| ==> s[i].padding < padding) &&
    (forall i, j :: 0 <= i < j < |s| ==> s[i].padding != s[j].padding)
  }

  /** `PriorityQueue`: the list `_queue` (its heap layout is not modelled: `entries` keeps
      the order in which entries were placed) and the counter `_padding`. */
  class PriorityQueue<T(==)> {
    var entries: seq<Entry<T>>
    var padding: nat

    ghost predicate Valid()
      reads this
    {
      ValidEntries(entries, padding)
    }

    constructor ()
      ensures Valid() && entries == [] && padding == 0
    {
      entries := [];
      padding := 0;
    }

    /** `__bool__`. */
    function IsNonEmpty(): (b: bool)
      reads this
      ensures b <==> entries != []
    {
      |entries| > 0
    }

    /** `update`: the for-else scan over the list. */
    method Update(item: T, priority: int)
      requires Valid()
      modifies this
      ensures Valid()
      ensures (entries, padding) == Updated(old(entries), old(padding), item, priority)
    {
      var i := 0;
      while i < |entries|
        invariant 0 <= i <= |entries|
        invariant forall j :: 0 <= j < i ==> !Lowerable(entries[j], item, priority)
        invariant entries == old(entries) && padding == old(padding)
      {
        if entries[i].item == item && priority < entries[i].priority {
          assert FirstLowerable(entries, item, priority) == Some(i);
          UpdatedKeepsValid(entries, padding, item, priority);
          entries := RemoveAt(entries, i) + [Entry(priority, entries[i].padding, entries[i].item)];
          return;
        }
        i := i + 1;
      }
      UpdatedKeepsValid(entries, padding, item, priority);
      entries := entries + [Entry(priority, padding, item)];
      padding := padding + 1;
    }

    /** `pop`: removes the least entry by `(priority, padding)` and returns its item;
        `heappop` raises on an empty list, so callers check `__bool__` first. */
    method Pop() returns (item: T)
      requires Valid() && entries != []
      modifies this
      ensures Valid() && padding == old(padding)
      ensures var k := MinIndex(old(entries), |old(entries)|);
        item == old(entries)[k].item && entries == RemoveAt(old(entries), k)
    {
      var k := MinIndex(entries, |entries|);
      item := entries[k].item;
      entries := RemoveAt(entries, k);
    }
  }

  /** `update` keeps paddings distinct and below the counter. */
  lemma UpdatedKeepsValid<T>(s: seq<Entry<T>>, padding: nat, item: T, priority: int)
    requires ValidEntries(s, padding)
    ensures ValidEntries(Updated(s, padding, item, priority).0, Updated(s, padding, item, priority).1)
  {
    match FirstLowerable(s, item, priority)
    case Some(k) =>
      var r := RemoveAt(s, k) + [Entry(priority, s[k].padding, item)];
      forall i, j | 0 <= i < j < |r| ensures r[i].padding != r[j].padding {
        var i' := if i < k then i else i + 1;
        var j' := if j == |r| - 1 then k else if j < k then j else j + 1;
        assert r[i] == s[i'] && r[j].padding == s[j'].padding && i' != j';
      }
    case None =>
  }

  /** Without a matching entry at a higher priority, `update` appends exactly one entry
      under the current counter and advances the counter by one; everything else stays. */
  lemma UpdateInserts<T>(s: seq<Entry<T>>, padding: nat, item: T, priority: int)
    requires forall i :: 0 <= i < |s| ==> !(s[i].item == item && priority < s[i].priority)
    ensures Updated(s, padding, item, priority) == (s + [Entry(priority, padding, item)], padding + 1)
  {
  }

  /** When some entry holds `item` at a strictly higher priority, only the first such entry
      is lowered; it keeps its padding, the size and the counter are unchanged and no other
      entry changes value. */
  lemma UpdateLowersFirst<T>(s: seq<Entry<T>>, padding: nat, item: T, priority: int, k: nat)
    requires k < |s| && s[k].item == item && priority < s[k].priority
    requires forall i :: 0 <= i < k ==> !(s[i].item == item && priority < s[i].priority)
    ensures var (r, p) := Updated(s, padding, item, priority);
      p == padding && |r| == |s| &&
      r[|r| - 1] == Entry(priority, s[k].padding, item) &&
      multiset(r) == multiset(s) - multiset{s[k]} + multiset{Entry(priority, s[k].padding, item)}
  {
    var r := RemoveAt(s, k);
    assert s == s[..k] + [s[k]] + s[k + 1..];
    assert r == s[..k] + s[k + 1..];
  }

  /** An item already stored at a lower or equal priority is not left alone: a duplicate
      entry is appended (the for-else of `update`). */
  lemma UpdateNoBetterDuplicates<T>(s: seq<Entry<T>>, padding: nat, item: T, priority: int, k: nat)
    requires ValidEntries(s, padding)
    requires k < |s| && s[k].item == item && s[k].priority <= priority
    requires forall i :: 0 <= i < |s| && s[i].item == item ==> s[i].priority <= priority
    ensures var (r, _) := Updated(s, padding, item, priority);
      |r| == |s| + 1 && r[k] == s[k] && r[|s|].item == item && r[|s|] != s[k]
  {
  }

  /** `pop` takes the strictly least entry: every other entry has a higher priority or the
      same priority and a later padding (insertion order among equal priorities). */
  lemma PopIsLeast<T>(s: seq<Entry<T>>, padding: nat)
    requires ValidEntries(s, padding) && s != []
    ensures var k := MinIndex(s, |s|);
      forall j :: 0 <= j < |s| && j != k ==> Precedes(s[k], s[j])
  {
  }

  /** Two pops in a row come out in non-decreasing priority, and in padding order on ties. */
  lemma SuccessivePops<T>(s: seq<Entry<T>>, padding: nat)
    requires ValidEntries(s, padding) && |s| >= 2
    ensures var k := MinIndex(s, |s|);
      var r := RemoveAt(s, k);
      var k' := MinIndex(r, |r|);
      Precedes(s[k], r[k'])
  {
    var k := MinIndex(s, |s|);
    var r := RemoveAt(s, k);
    var k' := MinIndex(r, |r|);
    var j := if k' < k then k' else k' + 1;
    assert r[k'] == s[j] && j != k;
    PopIsLeast(s, padding);
  }

  /** A navigation policy: the next action from each location, None where there is none. */
  type Policy = map<Location, Option<Action>>

  /** `reverse_policy`: the same keys; the recorded action turned round, None where the
      record has no action. */
  function ReversePolicy(policy: map<Location, Record>): (r: Policy)
    ensures r.Keys == policy.Keys
    ensures forall k :: k in r ==> ReversedEntry(r[k], policy[k].action)
  {
    map k | k in policy :: ReverseAction(policy[k].action)
  }

  /** The reversed entry for one record: ` action.reverse() if action else None`. */
  function ReverseAction(action: Option<Action>): Option<Action> {
    if action.Some? then Some(Reverse(action.value)) else None
  }

  /** `reversed` is None exactly when `action` is, and otherwise turns back into it. */
  predicate ReversedEntry(reversed: Option<Action>, action: Option<Action>) {
    (reversed.None? <==> action.None?) &&
    (reversed.Some? ==> Reverse(reversed.value) == action.value)
  }
}
