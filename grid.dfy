/**
 * Grid geometry of maze.go: bounds, 8-connected adjacency and `GetNeighbors`,
 * plus the counting fact that bounds how many distinct cells a grid holds.
 */
module Grid {
  import opened Spots

  /** p lies inside a grid of the given width and height. */
  predicate InBounds(width: int, height: int, p: Pos)
  {
    0 <= p.x < width && 0 <= p.y < height
  }

  /** p and q are distinct and differ by at most one in each coordinate. */
  predicate Adjacent(p: Pos, q: Pos)
  {
    p != q && -1 <= p.x - q.x <= 1 && -1 <= p.y - q.y <= 1
  }

  /** The eight compass neighbours in the order the search visits them: W, NW, SW, E, NE, SE, N, S. */
  function Compass(p: Pos): seq<Pos>
  {
    [Pos(p.x - 1, p.y), Pos(p.x - 1, p.y - 1), Pos(p.x - 1, p.y + 1),
     Pos(p.x + 1, p.y), Pos(p.x + 1, p.y - 1), Pos(p.x + 1, p.y + 1),
     Pos(p.x, p.y - 1), Pos(p.x, p.y + 1)]
  }

  /** [q] when q lies inside the grid, [] otherwise. */
  function Keep(width: int, height: int, q: Pos): seq<Pos>
  {
    if InBounds(width, height, q) then [q] else []
  }

  /** The compass neighbours of p, in compass order, with those outside the grid dropped. */
  function Clipped(width: int, height: int, p: Pos): seq<Pos>
  {
    var c := Compass(p);
    Keep(width, height, c[0]) + Keep(width, height, c[1]) + Keep(width, height, c[2])
    + Keep(width, height, c[3]) + Keep(width, height, c[4]) + Keep(width, height, c[5])
    + Keep(width, height, c[6]) + Keep(width, height, c[7])
  }

  predicate Distinct(s: seq<Pos>)
  {
    forall i, j :: 0 <= i < j < |s| ==> s[i] != s[j]
  }

  /** The `x != 0` block of `GetNeighbors`: W, then NW and SW when those rows exist. */
  function WestColumn(height: int, p: Pos): seq<Pos>
  {
    if p.x != 0 then
      [Pos(p.x - 1, p.y)]
      + (if p.y != 0 then [Pos(p.x - 1, p.y - 1)] else [])
      + (if p.y < height - 1 then [Pos(p.x - 1, p.y + 1)] else [])
    else []
  }

  /** The `x < Width-1` block of `GetNeighbors`: E, then NE and SE when those rows exist. */
  function EastColumn(width: int, height: int, p: Pos): seq<Pos>
  {
    if p.x < width - 1 then
      [Pos(p.x + 1, p.y)]
      + (if p.y != 0 then [Pos(p.x + 1, p.y - 1)] else [])
      + (if p.y < height - 1 then [Pos(p.x + 1, p.y + 1)] else [])
    else []
  }

  /**
   * `GetNeighbors`: the in-bounds 8-connected neighbours of p, west column
   * first, then the east column, then north and south. The result is exactly
   * the set of in-bounds cells adjacent to p.
   */
  function Neighbors(width: int, height: int, p: Pos): (r: seq<Pos>)
    requires InBounds(width, height, p)
    ensures forall q :: q in r <==> InBounds(width, height, q) && Adjacent(p, q)
  {
    WestColumn(height, p) + EastColumn(width, height, p)
    + (if p.y != 0 then [Pos(p.x, p.y - 1)] else [])
    + (if p.y < height - 1 then [Pos(p.x, p.y + 1)] else [])
  }

  lemma WestColumnOrder(width: int, height: int, p: Pos)
    requires InBounds(width, height, p)
    ensures WestColumn(height, p)
      == Keep(width, height, Compass(p)[0]) + Keep(width, height, Compass(p)[1]) + Keep(width, height, Compass(p)[2])
  {
    if p.x != 0 {
      if p.y != 0 {
        if p.y < height - 1 {
        } else {
        }
      } else {
        if p.y < height - 1 {
        } else {
        }
      }
    }
  }

  lemma EastColumnOrder(width: int, height: int, p: Pos)
    requires InBounds(width, height, p)
    ensures EastColumn(width, height, p)
      == Keep(width, height, Compass(p)[3]) + Keep(width, height, Compass(p)[4]) + Keep(width, height, Compass(p)[5])
  {
    if p.x < width - 1 {
      if p.y != 0 {
        if p.y < height - 1 {
        } else {
        }
      } else {
        if p.y < height - 1 {
        } else {
        }
      }
    }
  }

  /**
   * `GetNeighbors` lists the compass neighbours of p in the fixed order
   * W, NW, SW, E, NE, SE, N, S, skipping those outside the grid.
   */
  lemma NeighborsOrder(width: int, height: int, p: Pos)
    requires InBounds(width, height, p)
    ensures Neighbors(width, height, p) == Clipped(width, height, p)
  {
    var w, h, c := width, height, Compass(p);
    WestColumnOrder(w, h, p);
    EastColumnOrder(w, h, p);
    var west, east := WestColumn(h, p), EastColumn(w, h, p);
    var north := if p.y != 0 then [Pos(p.x, p.y - 1)] else [];
    var south := if p.y < h - 1 then [Pos(p.x, p.y + 1)] else [];
    assert north == Keep(w, h, c[6]) && south == Keep(w, h, c[7]);
    assert west + east == Keep(w, h, c[0]) + Keep(w, h, c[1]) + Keep(w, h, c[2])
      + Keep(w, h, c[3]) + Keep(w, h, c[4]) + Keep(w, h, c[5]);
  }

  lemma DistinctAppend(a: seq<Pos>, b: seq<Pos>)
    requires Distinct(a) && Distinct(b)
    requires forall q :: q in a ==> q !in b
    ensures Distinct(a + b)
  {
    var r := a + b;
    forall i, j | 0 <= i < j < |r| ensures r[i] != r[j] {
      if j < |a| {
        assert r[i] == a[i] && r[j] == a[j];
      } else if i < |a| {
        assert r[i] == a[i] && r[j] == b[j - |a|];
        assert r[i] in a && r[j] in b;
      } else {
        assert r[i] == b[i - |a|] && r[j] == b[j - |a|];
      }
    }
  }

  /**
   * `GetNeighbors` returns at most eight cells and never the same cell twice.
   */
  lemma NeighborsDistinct(width: int, height: int, p: Pos)
    requires InBounds(width, height, p)
    ensures |Neighbors(width, height, p)| <= 8
    ensures Distinct(Neighbors(width, height, p))
  {
    NeighborsOrder(width, height, p);
    var w, h, c := width, height, Compass(p);
    CompassDistinct(p);
    KeepFirstDistinct(w, h, c, 8);
    ClippedUnrolled(w, h, p);
  }

  lemma ClippedUnrolled(w: int, h: int, p: Pos)
    ensures KeepFirst(w, h, Compass(p), 8) == Clipped(w, h, p)
  {
    var c := Compass(p);
    assert KeepFirst(w, h, c, 1) == Keep(w, h, c[0]);
    assert KeepFirst(w, h, c, 2) == Keep(w, h, c[0]) + Keep(w, h, c[1]);
    assert KeepFirst(w, h, c, 3) == KeepFirst(w, h, c, 2) + Keep(w, h, c[2]);
    assert KeepFirst(w, h, c, 4) == KeepFirst(w, h, c, 3) + Keep(w, h, c[3]);
    assert KeepFirst(w, h, c, 5) == KeepFirst(w, h, c, 4) + Keep(w, h, c[4]);
    assert KeepFirst(w, h, c, 6) == KeepFirst(w, h, c, 5) + Keep(w, h, c[5]);
    assert KeepFirst(w, h, c, 7) == KeepFirst(w, h, c, 6) + Keep(w, h, c[6]);
  }

  lemma CompassDistinct(p: Pos)
    ensures Distinct(Compass(p))
  {
  }

  lemma {:induction false} KeepFirstDistinct(width: int, height: int, s: seq<Pos>, n: nat)
    requires n <= |s| && Distinct(s)
    ensures |KeepFirst(width, height, s, n)| <= n
    ensures forall q :: q in KeepFirst(width, height, s, n) ==> q in s[..n]
    ensures Distinct(KeepFirst(width, height, s, n))
  {
    if n > 0 {
      KeepFirstDistinct(width, height, s, n - 1);
      var acc := KeepFirst(width, height, s, n - 1);
      assert s[..n] == s[..n - 1] + [s[n - 1]];
      forall q | q in acc ensures q !in Keep(width, height, s[n - 1]) {
        var k :| 0 <= k < n - 1 && s[..n - 1][k] == q;
        assert s[k] == q;
      }
      DistinctAppend(acc, Keep(width, height, s[n - 1]));
    }
  }

  /** Keep applied to the first n entries of s, concatenated in order. */
  function KeepFirst(width: int, height: int, s: seq<Pos>, n: nat): seq<Pos>
    requires n <= |s|
  {
    if n == 0 then [] else KeepFirst(width, height, s, n - 1) + Keep(width, height, s[n - 1])
  }

  /** All positions of a width-by-height grid. */
  function Box(width: nat, height: nat): set<Pos>
  {
    set x, y | 0 <= x < width && 0 <= y < height :: Pos(x, y)
  }

  function RowBox(width: nat, y: int): set<Pos>
  {
    set x | 0 <= x < width :: Pos(x, y)
  }

  lemma {:induction false} RowBoxSize(width: nat, y: int)
    ensures |RowBox(width, y)| == width
  {
    if width > 0 {
      RowBoxSize(width - 1, y);
      assert RowBox(width, y) == RowBox(width - 1, y) + {Pos(width - 1, y)};
    }
  }

  /** A width-by-height grid holds width * height positions. */
  lemma {:induction false} BoxSize(width: nat, height: nat)
    ensures |Box(width, height)| == width * height
  {
    if height > 0 {
      BoxSize(width, height - 1);
      RowBoxSize(width, height - 1);
      BoxLastRow(width, height);
      assert width * height == width * (height - 1) + width;
    }
  }

  /** A grid is the grid one row shorter plus its last row, which it does not overlap. */
  lemma BoxLastRow(width: nat, height: nat)
    requires height > 0
    ensures Box(width, height) == Box(width, height - 1) + RowBox(width, height - 1)
    ensures Box(width, height - 1) !! RowBox(width, height - 1)
  {
    forall p | p in Box(width, height)
      ensures p in Box(width, height - 1) || p in RowBox(width, height - 1)
    {
      if p.y < height - 1 {
        assert p in Box(width, height - 1);
      } else {
        assert p in RowBox(width, height - 1);
      }
    }
  }

  lemma {:induction false} DistinctSize(s: seq<Pos>)
    requires Distinct(s)
    ensures |set p | p in s| == |s|
  {
    if s != [] {
      var init := s[..|s| - 1];
      assert Distinct(init) by {
        forall i, j | 0 <= i < j < |init| ensures init[i] != init[j] {
          assert init[i] == s[i] && init[j] == s[j];
        }
      }
      DistinctSize(init);
      assert (set p | p in s) == (set p | p in init) + {s[|s| - 1]};
      assert s[|s| - 1] !in init;
    }
  }

  lemma {:induction false} SubsetSize(a: set<Pos>, b: set<Pos>)
    requires a <= b
    ensures |a| <= |b|
    decreases |a|
  {
    if a != {} {
      var e :| e in a;
      SubsetSize(a - {e}, b - {e});
    }
  }

  /** A list of distinct in-bounds positions is no longer than the grid has cells. */
  lemma DistinctInBox(s: seq<Pos>, width: int, height: int)
    requires Distinct(s)
    requires forall i :: 0 <= i < |s| ==> InBounds(width, height, s[i])
    ensures |s| <= (if width < 0 || height < 0 then 0 else width * height)
  {
    if s != [] {
      assert InBounds(width, height, s[0]);
      DistinctSize(s);
      forall p | p in s ensures p in Box(width, height) {
        var i :| 0 <= i < |s| && s[i] == p;
      }
      SubsetSize((set p | p in s), Box(width, height));
      BoxSize(width, height);
    }
  }

  /**
   * A queue kept as the tail of its enqueue history, from index `popped`,
   * stays so when items join both.
   */
  lemma QueueAppend<T>(queue: seq<T>, order: seq<T>, popped: nat, more: seq<T>)
    requires popped <= |order| && queue == order[popped..]
    ensures queue + more == (order + more)[popped..]
  {
    assert (order + more)[popped..] == order[popped..] + more;
  }
}
