/**
 * The `Maze` type of maze.go: a grid of spots read from text, printed back,
 * and searched breadth-first from a start spot, with the shortest path to an
 * exit recovered from the predecessor links the search leaves behind.
 */
module Mazes {
  import opened Wrappers
  import opened Spots
  import opened Grid
  import opened Text
  import opened Search

  /** The errors `FindExits` and `GetPathToExit` return. */
  datatype MazeError = InvalidStartingSpot | InvalidExitSpot

  /**
   * A maze. `spots` holds each spot's kind and location, fixed once parsed;
   * `visits[r, c]` holds the `Distance` and `Path` fields of the spot in row r,
   * column c, which every search overwrites in place.
   */
  class Maze {
    const width: int
    const height: int
    const spots: seq<seq<Cell>>
    const visits: array2<Visit>

    /** Rows are `width` spots long, each spot sits at its own location, and `visits` covers every spot. */
    ghost predicate Valid()
    {
      && (forall r :: 0 <= r < |spots| ==> |spots[r]| == width)
      && (forall r, c :: 0 <= r < |spots| && 0 <= c < |spots[r]| ==> spots[r][c].x == c && spots[r][c].y == r)
      && visits.Length0 == |spots|
      && visits.Length1 == (if width < 0 then 0 else width)
    }

    /** All `height` rows are present, so every in-bounds position names a spot. */
    ghost predicate Complete()
    {
      height <= |spots|
    }

    /** The fixed part of the maze the search reads. */
    function AsBoard(): Board
    {
      Board(width, height, spots)
    }

    /** True when p indexes `visits`. */
    predicate Tracked(p: Pos)
    {
      0 <= p.y < visits.Length0 && 0 <= p.x < visits.Length1
    }

    /** The positions `visits` covers. */
    ghost function Cells(): set<Pos>
    {
      set r, c | 0 <= r < visits.Length0 && 0 <= c < visits.Length1 :: Pos(c, r)
    }

    /** The current `Distance` and `Path` of every spot, as a value. */
    ghost function Trace(): (t: Trace)
      reads visits
      ensures forall p :: p in t <==> Tracked(p)
      ensures forall p :: Tracked(p) ==> t[p] == visits[p.y, p.x]
    {
      map p | p in Cells() :: visits[p.y, p.x]
    }

    /** The maze built from parsed rows; every spot starts with Go's zero values (distance 0, no path). */
    constructor (width: int, height: int, spots: seq<seq<Cell>>)
      requires forall r :: 0 <= r < |spots| ==> |spots[r]| == width
      requires forall r, c :: 0 <= r < |spots| && 0 <= c < |spots[r]| ==> spots[r][c].x == c && spots[r][c].y == r
      ensures Valid() && fresh(visits)
      ensures this.width == width && this.height == height && this.spots == spots
      ensures forall r, c :: 0 <= r < visits.Length0 && 0 <= c < visits.Length1 ==> visits[r, c] == Visit(0, None)
    {
      this.width := width;
      this.height := height;
      this.spots := spots;
      visits := new Visit[|spots|, if width < 0 then 0 else width]((_, _) => Visit(0, None));
    }

    /** `Maze.String`: the glyphs of every row, each row followed by a newline. */
    method String() returns (out: string)
      ensures out == Render(spots)
    {
      out := "";
      for r := 0 to |spots|
        invariant out == Render(spots[..r])
      {
        var line := spots[r];
        for c := 0 to |line|
          invariant out == Render(spots[..r]) + RowText(line[..c])
        {
          assert line[..c + 1][..c] == line[..c];
          out := out + [Glyph(line[c].kind)];
        }
        assert line[..|line|] == line;
        assert spots[..r + 1][..r] == spots[..r];
        out := out + "\n";
      }
      assert spots[..|spots|] == spots;
    }

    /** `Maze.Initialize`: every spot's distance becomes -1 and its path nil. */
    method Initialize()
      modifies visits
      ensures forall r, c :: 0 <= r < visits.Length0 && 0 <= c < visits.Length1 ==> visits[r, c] == Visit(-1, None)
    {
      for r := 0 to visits.Length0
        invariant forall i, j :: 0 <= i < r && 0 <= j < visits.Length1 ==> visits[i, j] == Visit(-1, None)
      {
        for c := 0 to visits.Length1
          invariant forall i, j :: 0 <= i < r && 0 <= j < visits.Length1 ==> visits[i, j] == Visit(-1, None)
          invariant forall j :: 0 <= j < c ==> visits[r, j] == Visit(-1, None)
        {
          visits[r, c] := Visit(-1, None);
        }
      }
    }

    /** t records the current `Distance` and `Path` of every spot. */
    ghost predicate Holds(t: Trace)
      reads visits
    {
      forall p :: Tracked(p) ==> p in t && t[p] == visits[p.y, p.x]
    }

    /**
     * `Maze.FindExits`: a start outside the maze is refused and nothing
     * changes. Otherwise every spot is reset, the start gets distance 0 (even
     * when it is a wall), and a first-in first-out queue gives each unvisited
     * non-wall neighbour of the spot it dequeues that spot's distance plus
     * one and that spot as its path. When the queue runs dry the search is
     * complete; `order` lists every spot ever enqueued, which are the spots
     * reached, each once.
     */
    method FindExits(x: int, y: int) returns (r: Outcome<MazeError>, ghost order: seq<Pos>)
      requires Valid() && Complete() && x >= 0 && y >= 0
      modifies visits
      ensures r == if x >= width || y >= height then Fail(InvalidStartingSpot) else Pass
      ensures r.Fail? ==> unchanged(visits)
      ensures r.Pass? ==> Searched(AsBoard(), Trace(), Pos(x, y))
      ensures r.Pass? ==> Distinct(order) && |order| <= width * height
      ensures r.Pass? ==> forall p :: InBounds(width, height, p) ==> (p in order <==> Dist(Trace(), p) >= 0)
    {
      if x >= width || y >= height {
        return Fail(InvalidStartingSpot), [];
      }
      var start := Pos(x, y);
      ghost var b := AsBoard();
      Initialize();
      ghost var t := Trace();
      assert Reset(b, t);
      StartSearch(b, t, start);
      t := Discover(start, 0, visits[y, x].path, t);
      var queue := [start];
      order := [start];
      ghost var popped := 0;
      while |queue| > 0
        invariant Holds(t)
        invariant popped <= |order| && queue == order[popped..]
        invariant Enqueued(b, t, start, order)
        invariant Explored(b, t, order, popped)
        invariant Level(t, order, popped)
        invariant |order| <= width * height
        decreases width * height - popped
      {
        var current := queue[0];
        queue := queue[1..];
        popped := popped + 1;
        queue, order, t := VisitNeighbors(start, current, queue, order, popped, t);
        DistinctInBox(order, width, height);
      }
      SearchComplete(b, t, start, order);
      assert Agree(b, t, Trace());
      SearchedAgree(b, t, Trace(), start, order);
      r := Pass;
    }

    /**
     * One turn of the outer loop of `FindExits` after `current` is dequeued:
     * the unvisited non-wall neighbours of `current`, in `GetNeighbors`
     * order, get its distance plus one and `current` as their path, and join
     * the queue in that order; every other spot keeps its visit. The queue
     * invariants then hold with `current` explored.
     */
    method VisitNeighbors(ghost s: Pos, current: Pos, queue: seq<Pos>, ghost order: seq<Pos>, ghost popped: nat, ghost t: Trace)
      returns (queue': seq<Pos>, ghost order': seq<Pos>, ghost t': Trace)
      requires Valid() && Complete() && Holds(t)
      requires Enqueued(AsBoard(), t, s, order)
      requires 1 <= popped <= |order| && current == order[popped - 1] && queue == order[popped..]
      requires Explored(AsBoard(), t, order, popped - 1)
      requires Level(t, order, popped - 1)
      modifies visits
      ensures Holds(t')
      ensures order' == order + Unvisited(AsBoard(), t, Neighbors(width, height, current))
      ensures queue' == queue + Unvisited(AsBoard(), t, Neighbors(width, height, current))
      ensures t' == Overwrite(t, Unvisited(AsBoard(), t, Neighbors(width, height, current)), Visit(Dist(t, current) + 1, Some(current)))
      ensures Enqueued(AsBoard(), t', s, order')
      ensures |order| <= |order'| && queue' == order'[popped..]
      ensures Explored(AsBoard(), t', order', popped)
      ensures Level(t', order', popped)
    {
      var neighbors := Neighbors(width, height, current);
      NeighborsDistinct(width, height, current);
      queue', order', t' := ScanNeighbors(current, Dist(t, current), neighbors, queue, order, t);
      VisitKeepsQueue(AsBoard(), t, s, order, popped, current, t', order');
      QueueAppend(queue, order, popped, Unvisited(AsBoard(), t, neighbors));
    }

    /** The loop of `FindExits` over the neighbours of `current`, in order. */
    method ScanNeighbors(current: Pos, ghost d: int, neighbors: seq<Pos>, queue: seq<Pos>, ghost order: seq<Pos>, ghost t: Trace)
      returns (queue': seq<Pos>, ghost order': seq<Pos>, ghost t': Trace)
      requires Valid() && Complete() && Holds(t)
      requires InBounds(width, height, current) && Dist(t, current) == d
      requires neighbors == Neighbors(width, height, current) && Distinct(neighbors)
      modifies visits
      ensures Holds(t')
      ensures order' == order + Unvisited(AsBoard(), t, Neighbors(width, height, current))
      ensures queue' == queue + Unvisited(AsBoard(), t, Neighbors(width, height, current))
      ensures t' == Overwrite(t, Unvisited(AsBoard(), t, Neighbors(width, height, current)), Visit(Dist(t, current) + 1, Some(current)))
    {
      queue', order', t' := queue, order, t;
      for i := 0 to |neighbors|
        invariant Valid() && Complete() && neighbors == Neighbors(width, height, current)
        invariant Holds(t') && Dist(t', current) == d
        invariant order' == order + Unvisited(AsBoard(), t, neighbors[..i])
        invariant queue' == queue + Unvisited(AsBoard(), t, neighbors[..i])
        invariant t' == Overwrite(t, Unvisited(AsBoard(), t, neighbors[..i]), Visit(Dist(t, current) + 1, Some(current)))
      {
        ghost var t1, order1, queue1 := t', order', queue';
        queue', order', t' := CheckNeighbor(current, d, neighbors, i, queue', order', t');
        UnvisitedRecorded(AsBoard(), t, t1, t', order, order1, order', queue, queue1, queue', neighbors, i, Visit(Dist(t, current) + 1, Some(current)));
      }
      assert neighbors[..|neighbors|] == neighbors;
    }

    /**
     * `Maze.GetPathToExit`: the search from the start runs first, whatever
     * its outcome. A start outside the maze is refused before the exit is
     * looked at. Otherwise the result lists the spots met following the path
     * links from the exit, exit first, up to and without the first spot that
     * has no link (the start, or the exit itself when it was not reached).
     */
    method GetPathToExit(startX: int, startY: int, exitX: int, exitY: int) returns (r: Result<seq<Pos>, MazeError>)
      requires Valid() && Complete()
      requires startX >= 0 && startY >= 0 && exitX >= 0 && exitY >= 0
      modifies visits
      ensures startX >= width || startY >= height ==> r == Failure(InvalidStartingSpot) && unchanged(visits)
      ensures startX < width && startY < height ==> Searched(AsBoard(), Trace(), Pos(startX, startY))
      ensures startX < width && startY < height && (exitX >= width || exitY >= height) ==> r == Failure(InvalidExitSpot)
      ensures startX < width && startY < height && exitX < width && exitY < height ==>
        r == Success(Backtrack(AsBoard(), Trace(), Pos(startX, startY), Pos(exitX, exitY)))
    {
      var _, _ := FindExits(startX, startY);
      if startX >= width || startY >= height {
        return Failure(InvalidStartingSpot);
      }
      if exitX >= width || exitY >= height {
        return Failure(InvalidExitSpot);
      }
      ghost var b := AsBoard();
      ghost var t := Trace();
      ghost var start := Pos(startX, startY);
      var exit := Pos(exitX, exitY);
      var path := [];
      var current := exit;
      while visits[current.y, current.x].path.Some?
        invariant b.InGrid(current)
        invariant path + Backtrack(b, t, start, current) == Backtrack(b, t, start, exit)
        decreases if Dist(t, current) < 0 then 0 else Dist(t, current)
      {
        assert Tracked(current) && Prev(t, current).Some?;
        assert LinkedBack(b, t, current);
        ghost var rest := Backtrack(b, t, start, visits[current.y, current.x].path.value);
        assert Backtrack(b, t, start, current) == [current] + rest;
        path := path + [current];
        current := visits[current.y, current.x].path.value;
      }
      assert Tracked(current) && Prev(t, current).None?;
      assert Backtrack(b, t, start, current) == [];
      assert path + [] == path;
      assert Trace() == t;
      return Success(path);
    }

    /**
     * `Maze.PrintPath` without the printing: the text of the maze with a '*'
     * written for every spot of the path and then an 'S' for its last spot,
     * each at index x * y of the text, x and y being the spot's location.
     */
    method PrintPath(path: seq<Pos>) returns (out: string)
      requires Valid() && |path| > 0
      requires forall i :: 0 <= i < |path| ==> 0 <= path[i].x < width && 0 <= path[i].y < |spots|
      ensures |out| == |Render(spots)|
      ensures 0 <= OverlayIndex(path[|path| - 1]) < |out| && out[OverlayIndex(path[|path| - 1])] == 'S'
      ensures forall n :: 0 <= n < |out| && n != OverlayIndex(path[|path| - 1]) ==>
        out[n] == if Starred(path, |path|, n) then '*' else Render(spots)[n]
    {
      var text := String();
      RenderLength(spots, width);
      var buffer := new char[|text|](k requires 0 <= k < |text| => text[k]);
      for i := 0 to |path|
        invariant forall n :: 0 <= n < buffer.Length ==> buffer[n] == if Starred(path, i, n) then '*' else text[n]
      {
        OverlayInRange(path[i], width, |spots|);
        buffer[OverlayIndex(path[i])] := '*';
      }
      var last := path[|path| - 1];
      OverlayInRange(last, width, |spots|);
      buffer[OverlayIndex(last)] := 'S';
      out := buffer[..];
    }

    /**
     * `PrintPath` as evidently intended: each mark goes at the place of its
     * own spot in the maze text, so the path's spots show as '*' (its last
     * one as 'S') and every other spot, and every newline, is unchanged.
     */
    method PrintPathAtSpots(path: seq<Pos>) returns (out: string)
      requires Valid() && |path| > 0
      requires forall i :: 0 <= i < |path| ==> 0 <= path[i].x < width && 0 <= path[i].y < |spots|
      ensures |out| == |Render(spots)|
      ensures forall r, c :: 0 <= r < |spots| && 0 <= c <= width ==>
        && 0 <= TextIndex(width, Pos(c, r)) < |out|
        && out[TextIndex(width, Pos(c, r))] ==
             if c == width then '\n'
             else if Pos(c, r) == path[|path| - 1] then 'S'
             else if Pos(c, r) in path then '*'
             else Glyph(spots[r][c].kind)
    {
      var text := String();
      RenderLength(spots, width);
      var buffer := new char[|text|](k requires 0 <= k < |text| => text[k]);
      for i := 0 to |path|
        invariant forall n :: 0 <= n < buffer.Length ==> buffer[n] == if Covered(width, path, i, n) then '*' else text[n]
      {
        RenderAt(spots, width, path[i].y, path[i].x);
        buffer[TextIndex(width, path[i])] := '*';
      }
      var last := path[|path| - 1];
      RenderAt(spots, width, last.y, last.x);
      buffer[TextIndex(width, last)] := 'S';
      out := buffer[..];
      MarksAtSpots(spots, width, path, out);
    }

    /**
     * One pass of the inner loop of `FindExits`: the i-th neighbour of
     * `current` is discovered from it, getting distance d + 1 and `current`
     * as its path and joining the queue, when it is not a wall and has
     * distance -1; otherwise it is passed over and nothing changes.
     */
    method CheckNeighbor(current: Pos, ghost d: int, neighbors: seq<Pos>, i: nat, queue: seq<Pos>, ghost order: seq<Pos>, ghost t: Trace)
      returns (queue': seq<Pos>, ghost order': seq<Pos>, ghost t': Trace)
      requires Valid() && Complete() && Holds(t)
      requires InBounds(width, height, current) && Dist(t, current) == d
      requires neighbors == Neighbors(width, height, current) && i < |neighbors|
      modifies visits
      ensures Holds(t') && Dist(t', current) == d
      ensures if AsBoard().KindAt(neighbors[i]) != Wall && Dist(t, neighbors[i]) == -1
        then t' == t[neighbors[i] := Visit(d + 1, Some(current))] && order' == order + [neighbors[i]] && queue' == queue + [neighbors[i]]
        else t' == t && order' == order && queue' == queue
    {
      var neighbor := neighbors[i];
      assert InBounds(width, height, neighbor) && Adjacent(current, neighbor);
      queue', order', t' := queue, order, t;
      if Glyph(spots[neighbor.y][neighbor.x].kind) != 'X' && visits[neighbor.y, neighbor.x].distance == -1 {
        var distance := visits[current.y, current.x].distance + 1;
        assert Tracked(current) && distance == d + 1;
        t' := Discover(neighbor, distance, Some(current), t);
        queue' := queue + [neighbor];
        order' := order + [neighbor];
      }
    }

    /** `SetDistance` and `SetPath` on the spot at p, and the same change to the trace. */
    method Discover(p: Pos, distance: int, path: Option<Pos>, ghost t: Trace) returns (ghost t': Trace)
      requires Tracked(p) && Holds(t)
      modifies visits
      ensures t' == t[p := Visit(distance, path)] && Holds(t')
    {
      visits[p.y, p.x] := Visit(distance, path);
      t' := t[p := Visit(distance, path)];
    }
  }

  /**
   * Where `PrintPath` writes the mark of the spot at p: index x * y of the
   * maze text, not the spot's own place y * (width + 1) + x in that text.
   */
  function OverlayIndex(p: Pos): int
  {
    p.x * p.y
  }

  /** The place of the spot at p in the text of a maze whose rows are `width` spots long. */
  function TextIndex(width: int, p: Pos): int
  {
    p.y * (width + 1) + p.x
  }

  /** Distinct places of a row, newline included, have distinct indices in the maze text. */
  lemma TextIndexInjective(width: nat, p: Pos, q: Pos)
    requires 0 <= p.x <= width && 0 <= q.x <= width && 0 <= p.y && 0 <= q.y
    ensures TextIndex(width, p) == TextIndex(width, q) ==> p == q
  {
    if p.y < q.y {
      assert (p.y + 1) * (width + 1) <= q.y * (width + 1);
    } else if q.y < p.y {
      assert (q.y + 1) * (width + 1) <= p.y * (width + 1);
    }
  }

  /**
   * Where `PrintPath` as written puts its marks: every spot of column 0 or
   * of row 0 is marked at index 0, the top-left corner, and the spot (1, 1)
   * is marked over the glyph of the spot (1, 0) while its own glyph stays.
   */
  lemma OverlayMisplaced(width: int)
    requires width >= 2
    ensures forall p: Pos :: p.x == 0 || p.y == 0 ==> OverlayIndex(p) == 0
    ensures OverlayIndex(Pos(1, 1)) == TextIndex(width, Pos(1, 0))
    ensures OverlayIndex(Pos(1, 1)) != TextIndex(width, Pos(1, 1))
  {
  }

  /** Some of the first k spots of the path has its own place in the maze text at index n. */
  ghost predicate Covered(width: int, path: seq<Pos>, k: nat, n: int)
    requires k <= |path|
  {
    exists j :: 0 <= j < k && TextIndex(width, path[j]) == n
  }

  /** Some of the first k spots of the path is marked at index n. */
  ghost predicate Starred(path: seq<Pos>, k: nat, n: int)
    requires k <= |path|
  {
    exists j :: 0 <= j < k && OverlayIndex(path[j]) == n
  }

  /** The mark of a spot of the maze falls inside the maze text. */
  lemma OverlayInRange(p: Pos, width: int, rows: int)
    requires 0 <= p.x < width && 0 <= p.y < rows
    ensures 0 <= OverlayIndex(p) < rows * (width + 1)
  {
    assert p.x * p.y <= p.x * rows;
    assert p.x * rows <= width * rows;
    assert width * rows < rows * (width + 1);
  }

  /**
   * A text that agrees with the maze text except for a '*' at the place of
   * every spot of the path and an 'S' at the place of its last spot shows
   * each path spot as its mark and every other spot, and every newline,
   * unchanged.
   */
  lemma MarksAtSpots(spots: seq<seq<Cell>>, width: nat, path: seq<Pos>, out: string)
    requires forall r :: 0 <= r < |spots| ==> |spots[r]| == width
    requires |path| > 0
    requires forall i :: 0 <= i < |path| ==> 0 <= path[i].x < width && 0 <= path[i].y < |spots|
    requires |out| == |Render(spots)|
    requires forall n :: 0 <= n < |out| ==>
      out[n] == if n == TextIndex(width, path[|path| - 1]) then 'S'
                else if Covered(width, path, |path|, n) then '*'
                else Render(spots)[n]
    ensures forall r, c :: 0 <= r < |spots| && 0 <= c <= width ==>
      && 0 <= TextIndex(width, Pos(c, r)) < |out|
      && out[TextIndex(width, Pos(c, r))] ==
           if c == width then '\n'
           else if Pos(c, r) == path[|path| - 1] then 'S'
           else if Pos(c, r) in path then '*'
           else Glyph(spots[r][c].kind)
  {
    var last := path[|path| - 1];
    forall r, c | 0 <= r < |spots| && 0 <= c <= width
      ensures 0 <= TextIndex(width, Pos(c, r)) < |out|
      ensures out[TextIndex(width, Pos(c, r))] ==
           if c == width then '\n'
           else if Pos(c, r) == last then 'S'
           else if Pos(c, r) in path then '*'
           else Glyph(spots[r][c].kind)
    {
      RenderAt(spots, width, r, c);
      TextIndexInjective(width, Pos(c, r), last);
      forall j | 0 <= j < |path|
        ensures TextIndex(width, path[j]) == TextIndex(width, Pos(c, r)) ==> path[j] == Pos(c, r)
      {
        TextIndexInjective(width, Pos(c, r), path[j]);
      }
    }
  }

  /**
   * `NewMaze` after the header: the rows are read from `lines` until
   * `height` rows have been read or the lines run out. A line whose length
   * is not `width` is refused, and so is a character that names no spot;
   * otherwise each character becomes a spot located at (column, row).
   */
  method NewMaze(width: int, height: int, lines: seq<string>) returns (r: Result<Maze, ParseError>)
    ensures r.Failure? <==> ParseMaze(width, height, lines).Failure?
    ensures r.Failure? ==> r.error == ParseMaze(width, height, lines).error
    ensures r.Success? ==> fresh(r.value) && fresh(r.value.visits) && r.value.Valid()
    ensures r.Success? ==> r.value.width == width && r.value.height == height
    ensures r.Success? ==> r.value.spots == ParseMaze(width, height, lines).value
    ensures r.Success? ==> forall i, j :: 0 <= i < r.value.visits.Length0 && 0 <= j < r.value.visits.Length1 ==> r.value.visits[i, j] == Visit(0, None)
  {
    var rows: seq<seq<Cell>> := [];
    while |rows| < height && |rows| < |lines|
      invariant |rows| <= RowsRead(height, |lines|)
      invariant ParseRows(width, lines[..|rows|]) == Success(rows)
      decreases |lines| - |rows|
    {
      var y := |rows|;
      var line := lines[y];
      assert lines[..y + 1][..y] == lines[..y] && lines[..y + 1][y] == line;
      if |line| != width {
        ParseRowsFailureSticks(width, lines, y + 1, RowsRead(height, |lines|));
        return Failure(LineTooShort);
      }
      var newLine := new Cell[width](_ => Cell(Space, 0, 0));
      for idx := 0 to |line|
        invariant forall c :: 0 <= c < idx ==> IsSpotChar(line[c]) && newLine[c] == Cell(NewSpot(line[c]).value, c, y)
      {
        var kind := NewSpot(line[idx]);
        if kind.None? {
          ParseRowsFailureSticks(width, lines, y + 1, RowsRead(height, |lines|));
          return Failure(UnknownSpotType);
        }
        newLine[idx] := Cell(kind.value, idx, y);
      }
      assert forall c :: 0 <= c < |line| ==> IsSpotChar(line[c]);
      assert newLine[..] == seq(|line|, c requires 0 <= c < |line| && IsSpotChar(line[c]) => Cell(NewSpot(line[c]).value, c, y));
      rows := rows + [newLine[..]];
    }
    assert lines[..|rows|] == lines[..RowsRead(height, |lines|)];
    ParseRowsShape(width, lines[..|rows|]);
    var maze := new Maze(width, height, rows);
    return Success(maze);
  }
}
