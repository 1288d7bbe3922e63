/**
 * The breadth-first search of `FindExits`, stated over values: what the
 * distance and predecessor of every spot satisfy while the search runs and
 * when it stops, and what that state says about walks through the maze.
 */
module Search {
  import opened Wrappers
  import opened Spots
  import opened Grid

  /** The part of a maze the search reads and never changes: its bounds and its spots. */
  datatype Board = Board(width: int, height: int, spots: seq<seq<Cell>>)
  {
    predicate InGrid(p: Pos)
    {
      InBounds(width, height, p)
    }

    /** The kind of the spot at p; positions without a spot read as walls. */
    function KindAt(p: Pos): Kind
    {
      if 0 <= p.y < |spots| && 0 <= p.x < |spots[p.y]| then spots[p.y][p.x].kind else Wall
    }
  }

  /** The `Distance` and `Path` fields of every spot, keyed by the spot's position. */
  type Trace = map<Pos, Visit>

  /** The distance recorded for p; a position without an entry reads as unvisited. */
  function Dist(t: Trace, p: Pos): int
  {
    if p in t then t[p].distance else -1
  }

  /** The predecessor recorded for p; a position without an entry reads as nil. */
  function Prev(t: Trace, p: Pos): Option<Pos>
  {
    if p in t then t[p].path else None
  }

  /** Every spot is unvisited: the state `Initialize` leaves. */
  ghost predicate Reset(b: Board, t: Trace)
  {
    forall p :: b.InGrid(p) ==> Dist(t, p) == -1 && Prev(t, p) == None
  }

  /** Two traces that record the same visit for every spot of the maze. */
  ghost predicate Agree(b: Board, t1: Trace, t2: Trace)
  {
    forall p :: b.InGrid(p) ==> Dist(t1, p) == Dist(t2, p) && Prev(t1, p) == Prev(t2, p)
  }

  /**
   * p was reached from another spot: it is not a wall, and its predecessor is
   * an adjacent in-grid spot exactly one step closer to the start.
   */
  ghost predicate LinkedBack(b: Board, t: Trace, p: Pos)
  {
    && b.KindAt(p) != Wall
    && Dist(t, p) >= 1
    && Prev(t, p).Some?
    && b.InGrid(Prev(t, p).value)
    && Adjacent(Prev(t, p).value, p)
    && Dist(t, Prev(t, p).value) == Dist(t, p) - 1
  }

  /**
   * The per-spot facts of a search from s: s has distance 0 and no
   * predecessor, unvisited spots have distance -1 and no predecessor, and
   * every other visited spot is linked back towards s.
   */
  ghost predicate Traced(b: Board, t: Trace, s: Pos)
  {
    && b.InGrid(s)
    && Dist(t, s) == 0 && Prev(t, s) == None
    && (forall p :: b.InGrid(p) ==> Dist(t, p) >= -1 && (Dist(t, p) == -1 ==> Prev(t, p) == None))
    && (forall p {:trigger LinkedBack(b, t, p)} :: b.InGrid(p) && p != s && Dist(t, p) >= 0 ==> LinkedBack(b, t, p))
  }

  /** A non-wall neighbour of a visited spot is visited, at most one step further away. */
  ghost predicate Closed(b: Board, t: Trace)
  {
    forall u, v :: b.InGrid(u) && b.InGrid(v) && Adjacent(u, v) && Dist(t, u) >= 0 && b.KindAt(v) != Wall ==>
      0 <= Dist(t, v) <= Dist(t, u) + 1
  }

  /** The state a completed search from s leaves behind. */
  ghost predicate Searched(b: Board, t: Trace, s: Pos)
  {
    Traced(b, t, s) && Closed(b, t)
  }

  /**
   * The history of the work queue: every spot ever enqueued, in order, starting
   * with s; each at most once, each visited, by nondecreasing distance; and
   * every visited spot is among them.
   */
  ghost predicate Enqueued(b: Board, t: Trace, s: Pos, order: seq<Pos>)
  {
    && Traced(b, t, s)
    && |order| >= 1 && order[0] == s
    && (forall i :: 0 <= i < |order| ==> b.InGrid(order[i]) && Dist(t, order[i]) >= 0)
    && Distinct(order)
    && (forall i, j :: 0 <= i < j < |order| ==> Dist(t, order[i]) <= Dist(t, order[j]))
    && (forall p :: b.InGrid(p) && Dist(t, p) >= 0 ==> p in order)
  }

  /** The first n enqueued spots have been dequeued and every non-wall neighbour of theirs visited. */
  ghost predicate Explored(b: Board, t: Trace, order: seq<Pos>, n: nat)
    requires n <= |order|
  {
    forall i, v :: 0 <= i < n && b.InGrid(v) && Adjacent(order[i], v) && b.KindAt(v) != Wall ==>
      0 <= Dist(t, v) <= Dist(t, order[i]) + 1
  }

  /** Queued spots lie within one step of the spot at the front of the queue. */
  ghost predicate Level(t: Trace, order: seq<Pos>, popped: nat)
    requires popped <= |order| && |order| >= 1
  {
    popped < |order| ==> Dist(t, order[|order| - 1]) <= Dist(t, order[popped]) + 1
  }

  /** After the reset, giving the start distance 0 and enqueuing it starts a search. */
  lemma StartSearch(b: Board, t: Trace, s: Pos)
    requires b.InGrid(s) && Reset(b, t)
    ensures Enqueued(b, t[s := Visit(0, None)], s, [s])
    ensures Explored(b, t[s := Visit(0, None)], [s], 0)
    ensures Level(t[s := Visit(0, None)], [s], 0)
  {
  }

  /** Recording a discovery keeps every spot linked back towards the start. */
  lemma DiscoverTraced(b: Board, t: Trace, s: Pos, current: Pos, neighbor: Pos)
    requires Traced(b, t, s)
    requires b.InGrid(current) && Dist(t, current) >= 0
    requires b.InGrid(neighbor) && Adjacent(current, neighbor)
    requires b.KindAt(neighbor) != Wall && Dist(t, neighbor) == -1
    ensures Traced(b, t[neighbor := Visit(Dist(t, current) + 1, Some(current))], s)
  {
    var t' := t[neighbor := Visit(Dist(t, current) + 1, Some(current))];
    assert neighbor != s;
    forall p | b.InGrid(p) && p != s && Dist(t', p) >= 0
      ensures LinkedBack(b, t', p)
    {
      if p != neighbor {
        assert LinkedBack(b, t, p);
        assert Dist(t, Prev(t, p).value) >= 0;
      }
    }
  }

  /**
   * One discovery: an unvisited non-wall neighbour of the spot being
   * processed gets that spot's distance plus one and that spot as its
   * predecessor, and goes to the back of the queue. The search invariants
   * still hold, with the new spot last in the queue.
   */
  lemma DiscoverStep(b: Board, t: Trace, s: Pos, order: seq<Pos>, popped: nat, current: Pos, neighbor: Pos)
    requires Enqueued(b, t, s, order)
    requires 1 <= popped <= |order| && current == order[popped - 1]
    requires Explored(b, t, order, popped - 1)
    requires Dist(t, order[|order| - 1]) <= Dist(t, current) + 1
    requires b.InGrid(neighbor) && Adjacent(current, neighbor)
    requires b.KindAt(neighbor) != Wall && Dist(t, neighbor) == -1
    ensures var t' := t[neighbor := Visit(Dist(t, current) + 1, Some(current))];
      && Enqueued(b, t', s, order + [neighbor])
      && Explored(b, t', order + [neighbor], popped - 1)
      && Dist(t', neighbor) == Dist(t, current) + 1
  {
    var t' := t[neighbor := Visit(Dist(t, current) + 1, Some(current))];
    var order' := order + [neighbor];
    DiscoverTraced(b, t, s, current, neighbor);
    assert forall i :: 0 <= i < |order| ==> order[i] != neighbor;
    assert Distinct(order') by {
      DistinctAppend(order, [neighbor]);
    }
    DiscoverOrdered(t, order, current, neighbor);
    forall i, v | 0 <= i < popped - 1 && b.InGrid(v) && Adjacent(order'[i], v) && b.KindAt(v) != Wall
      ensures 0 <= Dist(t', v) <= Dist(t', order'[i]) + 1
    {
      assert order'[i] == order[i];
    }
  }

  /** Appending the discovered spot keeps the queue history sorted by distance. */
  lemma DiscoverOrdered(t: Trace, order: seq<Pos>, current: Pos, neighbor: Pos)
    requires |order| >= 1 && neighbor !in order
    requires forall i, j :: 0 <= i < j < |order| ==> Dist(t, order[i]) <= Dist(t, order[j])
    requires Dist(t, order[|order| - 1]) <= Dist(t, current) + 1
    ensures var t' := t[neighbor := Visit(Dist(t, current) + 1, Some(current))];
      forall i, j :: 0 <= i < j < |order| + 1 ==> Dist(t', (order + [neighbor])[i]) <= Dist(t', (order + [neighbor])[j])
  {
    var t' := t[neighbor := Visit(Dist(t, current) + 1, Some(current))];
    var order' := order + [neighbor];
    forall i, j | 0 <= i < j < |order'|
      ensures Dist(t', order'[i]) <= Dist(t', order'[j])
    {
      assert order'[i] == order[i];
      if j < |order| {
        assert order'[j] == order[j];
      } else {
        assert Dist(t, order[i]) <= Dist(t, order[|order| - 1]);
      }
    }
  }

  /**
   * Midway through the neighbours of `current` (distance d), the spot at
   * the front of the queue: the queue history is as `Enqueued` demands, the
   * spots before `current` are explored, the queue still ends within one
   * step of `current`, and the first i neighbours are visited if not walls.
   */
  ghost predicate Scanning(b: Board, t: Trace, s: Pos, order: seq<Pos>, popped: nat, current: Pos, d: int, neighbors: seq<Pos>, i: nat)
  {
    && Enqueued(b, t, s, order)
    && 1 <= popped <= |order| && order[popped - 1] == current
    && Explored(b, t, order, popped - 1)
    && Dist(t, current) == d
    && Dist(t, order[|order| - 1]) <= d + 1
    && i <= |neighbors|
    && (forall j :: 0 <= j < i && b.KindAt(neighbors[j]) != Wall ==> 0 <= Dist(t, neighbors[j]) <= d + 1)
  }

  /** Dequeuing `current` starts the scan of its neighbours. */
  lemma ScanStart(b: Board, t: Trace, s: Pos, order: seq<Pos>, popped: nat, neighbors: seq<Pos>)
    requires Enqueued(b, t, s, order)
    requires 1 <= popped <= |order|
    requires Explored(b, t, order, popped - 1) && Level(t, order, popped - 1)
    ensures Scanning(b, t, s, order, popped, order[popped - 1], Dist(t, order[popped - 1]), neighbors, 0)
  {
  }

  /** A neighbour that is a wall or already visited is passed over. */
  lemma ScanSkip(b: Board, t: Trace, s: Pos, order: seq<Pos>, popped: nat, current: Pos, d: int, neighbors: seq<Pos>, i: nat)
    requires Scanning(b, t, s, order, popped, current, d, neighbors, i) && i < |neighbors|
    requires b.KindAt(neighbors[i]) == Wall || Dist(t, neighbors[i]) != -1
    requires b.InGrid(neighbors[i]) && Adjacent(current, neighbors[i])
    ensures Scanning(b, t, s, order, popped, current, d, neighbors, i + 1)
  {
    var v := neighbors[i];
    if b.KindAt(v) != Wall {
      assert Dist(t, v) >= 0;
      var k :| 0 <= k < |order| && order[k] == v;
      assert Dist(t, order[k]) <= Dist(t, order[|order| - 1]);
    }
  }

  /**
   * An unvisited non-wall neighbour is discovered: it gets distance d + 1
   * and `current` as its path, and joins the back of the queue.
   */
  lemma ScanDiscover(b: Board, t: Trace, s: Pos, order: seq<Pos>, popped: nat, current: Pos, d: int, neighbors: seq<Pos>, i: nat)
    requires Scanning(b, t, s, order, popped, current, d, neighbors, i) && i < |neighbors|
    requires b.InGrid(neighbors[i]) && Adjacent(current, neighbors[i])
    requires b.KindAt(neighbors[i]) != Wall && Dist(t, neighbors[i]) == -1
    ensures Scanning(b, t[neighbors[i] := Visit(d + 1, Some(current))], s, order + [neighbors[i]], popped, current, d, neighbors, i + 1)
  {
    var v := neighbors[i];
    var t' := t[v := Visit(d + 1, Some(current))];
    DiscoverStep(b, t, s, order, popped, current, v);
    assert (order + [v])[popped - 1] == current;
    forall j | 0 <= j < i + 1 && b.KindAt(neighbors[j]) != Wall
      ensures 0 <= Dist(t', neighbors[j]) <= d + 1
    {
      if j < i {
        assert neighbors[j] != v;
      }
    }
  }
  /**
   * Once every neighbour of `current` has been looked at, `current` counts
   * as explored, and the queue still ends within one step of its new front.
   */
  lemma ScanFinish(b: Board, t: Trace, s: Pos, order: seq<Pos>, popped: nat, current: Pos, d: int, neighbors: seq<Pos>)
    requires Scanning(b, t, s, order, popped, current, d, neighbors, |neighbors|)
    requires forall v :: b.InGrid(v) && Adjacent(current, v) ==> v in neighbors
    ensures Enqueued(b, t, s, order)
    ensures Explored(b, t, order, popped)
    ensures Level(t, order, popped)
  {
    forall i, v | 0 <= i < popped && b.InGrid(v) && Adjacent(order[i], v) && b.KindAt(v) != Wall
      ensures 0 <= Dist(t, v) <= Dist(t, order[i]) + 1
    {
      if i == popped - 1 {
        assert v in neighbors;
      }
    }
    if popped < |order| {
      assert Dist(t, order[popped - 1]) <= Dist(t, order[popped]);
    }
  }

  /**
   * The entries of `neighbors`, in order, that one pass of the inner loop
   * discovers when it starts from the trace t: those that are not walls and
   * still have distance -1.
   */
  function Unvisited(b: Board, t: Trace, neighbors: seq<Pos>): (r: seq<Pos>)
    ensures |r| <= |neighbors|
  {
    if |neighbors| == 0 then []
    else
      var last := neighbors[|neighbors| - 1];
      Unvisited(b, t, neighbors[..|neighbors| - 1])
      + (if b.KindAt(last) != Wall && Dist(t, last) == -1 then [last] else [])
  }

  /** The spots discovered by a pass are exactly the listed neighbours that are not walls and are unvisited. */
  lemma {:induction false} UnvisitedMembers(b: Board, t: Trace, neighbors: seq<Pos>)
    ensures forall p :: p in Unvisited(b, t, neighbors) <==> p in neighbors && b.KindAt(p) != Wall && Dist(t, p) == -1
  {
    if |neighbors| > 0 {
      var front := neighbors[..|neighbors| - 1];
      UnvisitedMembers(b, t, front);
      assert neighbors == front + [neighbors[|neighbors| - 1]];
    }
  }

  /** t with every spot of `found` given the visit v, one after the other. */
  function Overwrite(t: Trace, found: seq<Pos>, v: Visit): Trace
  {
    if |found| == 0 then t else Overwrite(t, found[..|found| - 1], v)[found[|found| - 1] := v]
  }

  /**
   * Overwriting changes exactly the listed spots: they read v, every other
   * spot of t keeps its visit, and no spot outside t and `found` appears.
   */
  lemma {:induction false} OverwriteAt(t: Trace, found: seq<Pos>, v: Visit)
    ensures forall p :: p in Overwrite(t, found, v) <==> p in t || p in found
    ensures forall p :: p in Overwrite(t, found, v) ==> Overwrite(t, found, v)[p] == if p in found then v else t[p]
  {
    if |found| > 0 {
      var front := found[..|found| - 1];
      OverwriteAt(t, front, v);
      assert found == front + [found[|found| - 1]];
    }
  }

  /** Appending to a grown history is growing it by one more. */
  lemma AppendOne(order: seq<Pos>, found: seq<Pos>, p: Pos)
    ensures (order + found) + [p] == order + (found + [p])
  {
  }

  /** Adding one more spot to the overwritten list overwrites that spot last. */
  lemma OverwriteNext(t: Trace, found: seq<Pos>, p: Pos, v: Visit)
    ensures Overwrite(t, found + [p], v) == Overwrite(t, found, v)[p := v]
  {
    assert (found + [p])[..|found|] == found;
  }

  /**
   * Since no neighbour is listed twice, the i-th one is not among those the
   * earlier passes discovered, and the discovered list grows by it exactly
   * when it was an unvisited non-wall spot at the start.
   */
  lemma UnvisitedNext(b: Board, t: Trace, neighbors: seq<Pos>, i: nat)
    requires i < |neighbors| && Distinct(neighbors)
    ensures neighbors[i] !in Unvisited(b, t, neighbors[..i])
    ensures Unvisited(b, t, neighbors[..i + 1]) ==
      Unvisited(b, t, neighbors[..i]) + (if b.KindAt(neighbors[i]) != Wall && Dist(t, neighbors[i]) == -1 then [neighbors[i]] else [])
  {
    UnvisitedMembers(b, t, neighbors[..i]);
    assert neighbors[..i + 1][..i] == neighbors[..i];
    forall j | 0 <= j < i
      ensures neighbors[..i][j] != neighbors[i]
    {
      assert neighbors[..i][j] == neighbors[j];
    }
  }

  /**
   * The bookkeeping of one pass of the inner loop, stated over the trace t
   * the loop started from: if the queue history and the queue have grown by
   * the spots discovered so far, and the trace is t with those spots set to
   * v, the same holds one neighbour later, whether the pass discovers it or
   * passes it over.
   */
  lemma UnvisitedRecorded(b: Board, t: Trace, t1: Trace, t2: Trace, order: seq<Pos>, order1: seq<Pos>, order2: seq<Pos>,
                          queue: seq<Pos>, queue1: seq<Pos>, queue2: seq<Pos>, neighbors: seq<Pos>, i: nat, v: Visit)
    requires i < |neighbors| && Distinct(neighbors)
    requires t1 == Overwrite(t, Unvisited(b, t, neighbors[..i]), v)
    requires order1 == order + Unvisited(b, t, neighbors[..i]) && queue1 == queue + Unvisited(b, t, neighbors[..i])
    requires if b.KindAt(neighbors[i]) != Wall && Dist(t1, neighbors[i]) == -1
      then t2 == t1[neighbors[i] := v] && order2 == order1 + [neighbors[i]] && queue2 == queue1 + [neighbors[i]]
      else t2 == t1 && order2 == order1 && queue2 == queue1
    ensures t2 == Overwrite(t, Unvisited(b, t, neighbors[..i + 1]), v)
    ensures order2 == order + Unvisited(b, t, neighbors[..i + 1]) && queue2 == queue + Unvisited(b, t, neighbors[..i + 1])
  {
    var n := neighbors[i];
    var found := Unvisited(b, t, neighbors[..i]);
    UnvisitedNext(b, t, neighbors, i);
    OverwriteAt(t, found, v);
    assert Dist(t1, n) == Dist(t, n);
    if b.KindAt(n) != Wall && Dist(t, n) == -1 {
      OverwriteNext(t, found, n, v);
      assert order2 == order + (found + [n]);
      assert queue2 == queue + (found + [n]);
    } else {
      assert found + [] == found;
    }
  }

  /**
   * The scan invariant for the state the first i passes of the inner loop
   * leave, started from the trace t and the queue history `order`: the
   * spots they discovered have distance d + 1 and path `current`, and have
   * joined the queue history in order.
   */
  ghost predicate ScannedUpTo(b: Board, t: Trace, s: Pos, order: seq<Pos>, popped: nat, current: Pos, d: int, neighbors: seq<Pos>, i: nat)
    requires i <= |neighbors|
  {
    Scanning(b, Overwrite(t, Unvisited(b, t, neighbors[..i]), Visit(d + 1, Some(current))),
             s, order + Unvisited(b, t, neighbors[..i]), popped, current, d, neighbors, i)
  }

  /** Before the first pass the state is the one the loop started from. */
  lemma ScanNone(b: Board, t: Trace, s: Pos, order: seq<Pos>, popped: nat, current: Pos, d: int, neighbors: seq<Pos>)
    requires Scanning(b, t, s, order, popped, current, d, neighbors, 0)
    ensures ScannedUpTo(b, t, s, order, popped, current, d, neighbors, 0)
  {
    assert neighbors[..0] == [];
    assert order + [] == order;
  }

  /**
   * One pass of the inner loop keeps the scan invariant, stated over the
   * trace t the loop started from: the i-th neighbour is discovered exactly
   * when it was an unvisited non-wall spot in t.
   */
  lemma ScanOne(b: Board, t: Trace, s: Pos, order: seq<Pos>, popped: nat, current: Pos, d: int, neighbors: seq<Pos>, i: nat)
    requires b.InGrid(current) && neighbors == Neighbors(b.width, b.height, current) && Distinct(neighbors)
    requires i < |neighbors|
    requires ScannedUpTo(b, t, s, order, popped, current, d, neighbors, i)
    ensures ScannedUpTo(b, t, s, order, popped, current, d, neighbors, i + 1)
  {
    var v := Visit(d + 1, Some(current));
    var n := neighbors[i];
    var found := Unvisited(b, t, neighbors[..i]);
    var t1, order1 := Overwrite(t, found, v), order + found;
    assert n in neighbors;
    UnvisitedNext(b, t, neighbors, i);
    OverwriteAt(t, found, v);
    assert Dist(t1, n) == Dist(t, n);
    if b.KindAt(n) != Wall && Dist(t, n) == -1 {
      ScanDiscover(b, t1, s, order1, popped, current, d, neighbors, i);
      OverwriteNext(t, found, n, v);
      AppendOne(order, found, n);
    } else {
      ScanSkip(b, t1, s, order1, popped, current, d, neighbors, i);
      assert found + [] == found;
    }
  }

  /** Every prefix of the passes of the inner loop keeps the scan invariant. */
  lemma {:induction false} ScanThrough(b: Board, t: Trace, s: Pos, order: seq<Pos>, popped: nat, current: Pos, d: int,
                                       neighbors: seq<Pos>, i: nat)
    requires Scanning(b, t, s, order, popped, current, d, neighbors, 0)
    requires b.InGrid(current) && neighbors == Neighbors(b.width, b.height, current) && Distinct(neighbors)
    requires i <= |neighbors|
    ensures ScannedUpTo(b, t, s, order, popped, current, d, neighbors, i)
  {
    if i == 0 {
      ScanNone(b, t, s, order, popped, current, d, neighbors);
    } else {
      ScanThrough(b, t, s, order, popped, current, d, neighbors, i - 1);
      ScanOne(b, t, s, order, popped, current, d, neighbors, i - 1);
    }
  }

  /**
   * A whole turn of the outer loop keeps the queue invariants: once
   * `current`, the spot just dequeued, has had its unvisited non-wall
   * neighbours set to its distance plus one with `current` as their path,
   * and those neighbours have joined the queue history in `GetNeighbors`
   * order, `current` is explored as well.
   */
  lemma VisitKeepsQueue(b: Board, t: Trace, s: Pos, order: seq<Pos>, popped: nat, current: Pos, t': Trace, order': seq<Pos>)
    requires Enqueued(b, t, s, order)
    requires 1 <= popped <= |order| && current == order[popped - 1] && b.InGrid(current)
    requires Explored(b, t, order, popped - 1) && Level(t, order, popped - 1)
    requires t' == Overwrite(t, Unvisited(b, t, Neighbors(b.width, b.height, current)), Visit(Dist(t, current) + 1, Some(current)))
    requires order' == order + Unvisited(b, t, Neighbors(b.width, b.height, current))
    ensures Enqueued(b, t', s, order')
    ensures Explored(b, t', order', popped)
    ensures Level(t', order', popped)
  {
    var neighbors := Neighbors(b.width, b.height, current);
    var d := Dist(t, current);
    ScanAll(b, t, s, order, popped, current);
    assert neighbors[..|neighbors|] == neighbors;
    assert Scanning(b, t', s, order', popped, current, d, neighbors, |neighbors|);
    ScanFinish(b, t', s, order', popped, current, d, neighbors);
  }

  /** All the passes over the neighbours of the dequeued spot keep the scan invariant. */
  lemma ScanAll(b: Board, t: Trace, s: Pos, order: seq<Pos>, popped: nat, current: Pos)
    requires Enqueued(b, t, s, order)
    requires 1 <= popped <= |order| && current == order[popped - 1] && b.InGrid(current)
    requires Explored(b, t, order, popped - 1) && Level(t, order, popped - 1)
    ensures ScannedUpTo(b, t, s, order, popped, current, Dist(t, current), Neighbors(b.width, b.height, current),
                        |Neighbors(b.width, b.height, current)|)
  {
    var neighbors := Neighbors(b.width, b.height, current);
    NeighborsDistinct(b.width, b.height, current);
    ScanStart(b, t, s, order, popped, neighbors);
    ScanThrough(b, t, s, order, popped, current, Dist(t, current), neighbors, |neighbors|);
  }

  /** Once the queue is empty, every enqueued spot has been explored, and the search is complete. */
  lemma SearchComplete(b: Board, t: Trace, s: Pos, order: seq<Pos>)
    requires Enqueued(b, t, s, order)
    requires Explored(b, t, order, |order|)
    ensures Searched(b, t, s)
  {
    forall u, v | b.InGrid(u) && b.InGrid(v) && Adjacent(u, v) && Dist(t, u) >= 0 && b.KindAt(v) != Wall
      ensures 0 <= Dist(t, v) <= Dist(t, u) + 1
    {
      var i :| 0 <= i < |order| && order[i] == u;
    }
  }

  /**
   * What a completed search establishes depends only on the visits recorded
   * for the spots of the maze: it carries over to any trace that agrees there.
   */
  lemma SearchedAgree(b: Board, t1: Trace, t2: Trace, s: Pos, order: seq<Pos>)
    requires Agree(b, t1, t2)
    requires Searched(b, t1, s) && Enqueued(b, t1, s, order)
    ensures Searched(b, t2, s)
    ensures forall p :: b.InGrid(p) ==> (p in order <==> Dist(t2, p) >= 0)
  {
    forall p | b.InGrid(p) && p != s && Dist(t2, p) >= 0
      ensures LinkedBack(b, t2, p)
    {
      assert LinkedBack(b, t1, p);
    }
    forall p | b.InGrid(p) && p in order
      ensures Dist(t2, p) >= 0
    {
      var i :| 0 <= i < |order| && order[i] == p;
    }
  }

  /** A non-start wall is never visited: it keeps distance -1 and no predecessor. */
  lemma WallsUnvisited(b: Board, t: Trace, s: Pos, p: Pos)
    requires Traced(b, t, s)
    requires b.InGrid(p) && p != s && b.KindAt(p) == Wall
    ensures Dist(t, p) == -1 && Prev(t, p) == None
  {
    assert !LinkedBack(b, t, p);
  }

  /**
   * A walk from s through the maze: in-grid spots, each adjacent to the one
   * before it, none of them a wall except possibly s itself (the search
   * starts from s whatever s is).
   */
  ghost predicate IsWalk(b: Board, s: Pos, w: seq<Pos>)
  {
    && |w| >= 1 && w[0] == s
    && (forall i :: 0 <= i < |w| ==> b.InGrid(w[i]))
    && (forall i :: 1 <= i < |w| ==> b.KindAt(w[i]) != Wall && Adjacent(w[i - 1], w[i]))
  }

  /** No walk is shorter than the distance the search recorded at its end. */
  lemma {:induction false} WalkBound(b: Board, t: Trace, s: Pos, w: seq<Pos>)
    requires Searched(b, t, s) && IsWalk(b, s, w)
    ensures 0 <= Dist(t, w[|w| - 1]) <= |w| - 1
  {
    if |w| > 1 {
      var w' := w[..|w| - 1];
      assert forall i :: 0 <= i < |w'| ==> w'[i] == w[i];
      assert IsWalk(b, s, w');
      WalkBound(b, t, s, w');
      assert Adjacent(w[|w| - 2], w[|w| - 1]);
    }
  }

  /** The walk from s to p that follows the recorded predecessors, one step per unit of distance. */
  ghost function PredWalk(b: Board, t: Trace, s: Pos, p: Pos): (w: seq<Pos>)
    requires Traced(b, t, s) && b.InGrid(p) && Dist(t, p) >= 0
    ensures IsWalk(b, s, w) && |w| == Dist(t, p) + 1 && w[|w| - 1] == p
    decreases Dist(t, p)
  {
    if p == s then [s]
    else
      assert LinkedBack(b, t, p);
      PredWalk(b, t, s, Prev(t, p).value) + [p]
  }

  /**
   * After a search, a spot is visited exactly when some walk from the start
   * reaches it, and its distance is the length of a shortest such walk.
   */
  lemma ShortestWalk(b: Board, t: Trace, s: Pos, p: Pos)
    requires Searched(b, t, s) && b.InGrid(p)
    ensures Dist(t, p) >= 0 <==> exists w :: IsWalk(b, s, w) && w[|w| - 1] == p
    ensures forall w :: IsWalk(b, s, w) && w[|w| - 1] == p ==> Dist(t, p) <= |w| - 1
    ensures Dist(t, p) >= 0 ==> exists w :: IsWalk(b, s, w) && w[|w| - 1] == p && |w| == Dist(t, p) + 1
  {
    forall w | IsWalk(b, s, w) && w[|w| - 1] == p
      ensures 0 <= Dist(t, p) <= |w| - 1
    {
      WalkBound(b, t, s, w);
    }
    if Dist(t, p) >= 0 {
      var w := PredWalk(b, t, s, p);
      assert IsWalk(b, s, w) && w[|w| - 1] == p;
    }
  }

  /**
   * The distances a search leaves depend only on the maze and the start:
   * two completed searches from the same start agree on every spot, so
   * searching again changes no distance.
   */
  lemma DistancesDetermined(b: Board, t1: Trace, t2: Trace, s: Pos, p: Pos)
    requires Searched(b, t1, s) && Searched(b, t2, s) && b.InGrid(p)
    ensures Dist(t1, p) == Dist(t2, p)
  {
    if Dist(t1, p) >= 0 {
      WalkBound(b, t2, s, PredWalk(b, t1, s, p));
    }
    if Dist(t2, p) >= 0 {
      WalkBound(b, t1, s, PredWalk(b, t2, s, p));
    }
  }

  /**
   * The spots met following the predecessor links from e, e first, stopping
   * at the first spot without a predecessor (which is left out).
   */
  ghost function Backtrack(b: Board, t: Trace, s: Pos, e: Pos): seq<Pos>
    requires Traced(b, t, s) && b.InGrid(e)
    decreases if Dist(t, e) < 0 then 0 else Dist(t, e)
  {
    if Prev(t, e).None? then []
    else
      assert LinkedBack(b, t, e);
      [e] + Backtrack(b, t, s, Prev(t, e).value)
  }

  function Reversed<T>(s: seq<T>): (r: seq<T>)
    ensures |r| == |s|
    ensures forall i :: 0 <= i < |s| ==> r[i] == s[|s| - 1 - i]
  {
    if s == [] then [] else Reversed(s[1..]) + [s[0]]
  }

  /**
   * The path back from e: empty when e is the start or was not reached;
   * otherwise one spot per unit of e's distance, from e down to a spot whose
   * predecessor is the start, each spot's predecessor the next one.
   */
  lemma {:induction false} BacktrackShape(b: Board, t: Trace, s: Pos, e: Pos)
    requires Traced(b, t, s) && b.InGrid(e)
    ensures var path := Backtrack(b, t, s, e);
      && |path| == (if Dist(t, e) < 0 then 0 else Dist(t, e))
      && (path == [] <==> e == s || Dist(t, e) == -1)
      && (forall i :: 0 <= i < |path| ==> b.InGrid(path[i]) && Dist(t, path[i]) == Dist(t, e) - i)
      && (forall i :: 0 <= i < |path| - 1 ==> Prev(t, path[i]) == Some(path[i + 1]))
      && (path != [] ==> path[0] == e && Prev(t, path[|path| - 1]) == Some(s))
    decreases if Dist(t, e) < 0 then 0 else Dist(t, e)
  {
    if Prev(t, e).Some? {
      assert LinkedBack(b, t, e);
      var q := Prev(t, e).value;
      BacktrackShape(b, t, s, q);
      var rest := Backtrack(b, t, s, q);
      assert Backtrack(b, t, s, e) == [e] + rest;
      if rest == [] {
        assert q == s;
      }
    } else {
      assert !LinkedBack(b, t, e);
    }
  }

  /** Read backwards after the start, the path back from e is the predecessor walk to e. */
  lemma {:induction false} BacktrackWalk(b: Board, t: Trace, s: Pos, e: Pos)
    requires Traced(b, t, s) && b.InGrid(e) && Dist(t, e) >= 0
    ensures [s] + Reversed(Backtrack(b, t, s, e)) == PredWalk(b, t, s, e)
    decreases Dist(t, e)
  {
    if Prev(t, e).Some? {
      assert LinkedBack(b, t, e);
      var q := Prev(t, e).value;
      BacktrackWalk(b, t, s, q);
      var rest := Backtrack(b, t, s, q);
      assert Backtrack(b, t, s, e) == [e] + rest;
      assert Reversed([e] + rest) == Reversed(rest) + [e];
      assert e != s;
    } else {
      assert !LinkedBack(b, t, e);
    }
  }

  /**
   * The path back from a reached exit, read backwards after the start, is a
   * walk from the start to the exit, and no walk is shorter.
   */
  lemma PathIsShortest(b: Board, t: Trace, s: Pos, e: Pos)
    requires Searched(b, t, s) && b.InGrid(e) && Dist(t, e) >= 0
    ensures IsWalk(b, s, [s] + Reversed(Backtrack(b, t, s, e)))
    ensures |Backtrack(b, t, s, e)| == Dist(t, e)
    ensures forall w :: IsWalk(b, s, w) && w[|w| - 1] == e ==> |Backtrack(b, t, s, e)| <= |w| - 1
  {
    BacktrackWalk(b, t, s, e);
    ShortestWalk(b, t, s, e);
  }
}
