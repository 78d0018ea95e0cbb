/** Board geometry of the dinomite game: positions, the cells of a board, the
  * clamped neighbourhood of a cell, the number of dinos around it, and the
  * region a cascading reveal uncovers. Everything here is a pure value. */
module Field {

  /** A cell of the board: zero-based column `x` and row `y` (a pair of usize). */
  datatype Position = Position(x: nat, y: nat)

  predicate InBounds(width: nat, height: nat, p: Position)
  {
    p.x < width && p.y < height
  }

  /** Every cell of a width x height board. */
  function Cells(width: nat, height: nat): (cells: set<Position>)
    ensures forall p :: p in cells <==> InBounds(width, height, p)
  {
    var cells := set x: nat, y: nat | x < width && y < height :: Position(x, y);
    assert forall p :: InBounds(width, height, p) ==> p == Position(p.x, p.y);
    cells
  }

  /** The cells of row `y`. */
  function Row(width: nat, y: nat): (row: set<Position>)
    ensures forall p :: p in row <==> p.x < width && p.y == y
  {
    set x: nat | x < width :: Position(x, y)
  }

  lemma {:induction false} RowCount(width: nat, y: nat)
    ensures |Row(width, y)| == width
  {
    if width > 0 {
      assert Row(width, y) == Row(width - 1, y) + {Position(width - 1, y)};
      RowCount(width - 1, y);
    } else {
      assert Row(width, y) == {};
    }
  }

  /** A board has width * height cells. */
  lemma {:induction false} CellsCount(width: nat, height: nat)
    ensures |Cells(width, height)| == width * height
  {
    if height > 0 {
      CellsSplit(width, height - 1);
      CellsCount(width, height - 1);
      RowCount(width, height - 1);
      MulStep(width, height - 1);
    } else {
      assert Cells(width, height) == {};
    }
  }

  /** The board one row taller is the board plus its new bottom row. */
  lemma CellsSplit(width: nat, y: nat)
    ensures |Cells(width, y + 1)| == |Cells(width, y)| + |Row(width, y)|
  {
    var below, row := Cells(width, y), Row(width, y);
    assert Cells(width, y + 1) == below + row by {
      forall p ensures p in Cells(width, y + 1) <==> p in below + row {
      }
    }
    assert below * row == {} by {
      forall p | p in row ensures p !in below {
      }
    }
  }

  lemma MulStep(a: nat, b: nat)
    ensures a * b + a == a * (b + 1)
  {
  }

  lemma SubsetCard<T>(a: set<T>, b: set<T>)
    requires a <= b
    ensures |a| <= |b|
  {
    assert |b| == |a| + |b - a|;
  }

  lemma SubsetEqualCard<T>(a: set<T>, b: set<T>)
    requires a <= b && |a| == |b|
    ensures a == b
  {
    assert |b - a| == 0;
  }

  /** A set of cells on the board has at most width * height elements. */
  lemma OnBoardCount(width: nat, height: nat, s: set<Position>)
    requires s <= Cells(width, height)
    ensures |s| <= width * height
    ensures s < Cells(width, height) ==> |s| < width * height
  {
    CellsCount(width, height);
    assert |Cells(width, height)| == |s| + |Cells(width, height) - s|;
    if s < Cells(width, height) {
      var c :| c in Cells(width, height) - s;
    }
  }

  /** The win prediction of `check_position`: with `seen` safe and `p` a further safe
    * cell, `width * height - |dinos| - 1` does not underflow, and `|seen|` equals it
    * exactly when uncovering `p` uncovers the last safe cell. */
  lemma LastSafeCell(width: nat, height: nat, dinos: set<Position>, seen: set<Position>, p: Position)
    requires dinos <= Cells(width, height) && seen <= Cells(width, height) - dinos
    requires p in Cells(width, height) - dinos && p !in seen
    ensures |seen| + 1 <= width * height - |dinos|
    ensures |seen| + 1 == width * height - |dinos| <==> seen + {p} == Cells(width, height) - dinos
  {
    CellsCount(width, height);
    assert |Cells(width, height)| == |dinos| + |Cells(width, height) - dinos|;
    SubsetCard(seen + {p}, Cells(width, height) - dinos);
    if |seen| + 1 == width * height - |dinos| {
      SubsetEqualCard(seen + {p}, Cells(width, height) - dinos);
    }
  }

  // ---------------------------------------------------------------------------
  // Neighbours

  /** `n.saturating_sub(1)` on usize. */
  function SaturatingDec(n: nat): (r: nat)
    ensures r <= n && n <= r + 1
    ensures r == n <==> n == 0
  {
    if n == 0 then 0 else n - 1
  }

  /** `min(n + 1, dim - 1)`, the clamp at the high edge; `dim - 1` needs dim >= 1. */
  function ClampInc(n: nat, dim: nat): (r: nat)
    requires dim >= 1
    ensures r < dim && r <= n + 1
    ensures r == n + 1 || r == dim - 1
    ensures n < dim ==> n <= r
  {
    if n + 1 <= dim - 1 then n + 1 else dim - 1
  }

  /** The eight clamped candidates of `get_neighbors`, in its order: left, top left,
    * bottom left, top, bottom, right, top right, bottom right. */
  function Candidates(width: nat, height: nat, p: Position): seq<Position>
    requires InBounds(width, height, p)
  {
    var left, top := SaturatingDec(p.x), SaturatingDec(p.y);
    var right, bottom := ClampInc(p.x, width), ClampInc(p.y, height);
    [Position(left, p.y), Position(left, top), Position(left, bottom),
     Position(p.x, top), Position(p.x, bottom),
     Position(right, p.y), Position(right, top), Position(right, bottom)]
  }

  /** There are always eight candidates, each on the board and near `p`. */
  lemma CandidatesNear(width: nat, height: nat, p: Position)
    requires InBounds(width, height, p)
    ensures |Candidates(width, height, p)| == 8
    ensures forall i :: 0 <= i < 8 ==>
      InBounds(width, height, Candidates(width, height, p)[i]) && Near(p, Candidates(width, height, p)[i])
  {
  }

  predicate Distinct<T(==)>(s: seq<T>)
  {
    forall i, j :: 0 <= i < j < |s| ==> s[i] != s[j]
  }

  /** `Itertools::unique`: the first occurrence of every element, in order. */
  function Unique(s: seq<Position>): (u: seq<Position>)
    ensures Distinct(u)
    ensures forall a :: a in u <==> a in s
    ensures |u| <= |s|
  {
    if s == [] then []
    else
      var init := Unique(s[..|s| - 1]);
      if s[|s| - 1] in s[..|s| - 1] then init else init + [s[|s| - 1]]
  }

  /** A duplicate-free sequence has as many distinct elements as entries. */
  lemma {:induction false} DistinctCard<T>(s: seq<T>)
    requires Distinct(s)
    ensures |set a | a in s| == |s|
  {
    if s != [] {
      var init := s[..|s| - 1];
      assert (set a | a in s) == (set a | a in init) + {s[|s| - 1]};
      assert s[|s| - 1] !in init;
      DistinctCard(init);
    } else {
      assert (set a | a in s) == {};
    }
  }

  /** The cells `get_neighbors` yields for `p`, in the order they are visited. */
  function NeighborList(width: nat, height: nat, p: Position): (ns: seq<Position>)
    requires InBounds(width, height, p)
    ensures Distinct(ns) && |ns| <= 8
    ensures forall q :: q in ns <==> q in Candidates(width, height, p)
  {
    Unique(Candidates(width, height, p))
  }

  /** The neighbourhood of `p` as a set. */
  function Neighbors(width: nat, height: nat, p: Position): (r: set<Position>)
    requires InBounds(width, height, p)
    ensures p in r <==> OnBorder(width, height, p)
  {
    set q | q in Candidates(width, height, p)
  }

  /** `a` and `b` differ by at most one in each coordinate (a cell is near itself). */
  predicate Near(a: Position, b: Position)
  {
    a.x <= b.x + 1 && b.x <= a.x + 1 && a.y <= b.y + 1 && b.y <= a.y + 1
  }

  predicate OnBorder(width: nat, height: nat, p: Position)
  {
    p.x == 0 || p.y == 0 || p.x + 1 == width || p.y + 1 == height
  }

  /** The clamp-based neighbourhood is exactly the in-bounds cells near `p`,
    * including `p` itself precisely when `p` lies on the border. */
  lemma NeighborsShape(width: nat, height: nat, p: Position)
    requires InBounds(width, height, p)
    ensures forall q :: q in Neighbors(width, height, p) <==>
      InBounds(width, height, q) && Near(p, q) && (q == p ==> OnBorder(width, height, p))
  {
  }

  /** A cell near `p` other than `p` is one of its neighbours. */
  lemma NearIsNeighbor(width: nat, height: nat, p: Position, q: Position)
    requires InBounds(width, height, p) && InBounds(width, height, q)
    requires Near(p, q) && q != p
    ensures q in Neighbors(width, height, p)
  {
    NeighborsShape(width, height, p);
  }

  /** A cell that is not near `p` is not one of its neighbours. */
  lemma FarIsNoNeighbor(width: nat, height: nat, p: Position, q: Position)
    requires InBounds(width, height, p) && !Near(p, q)
    ensures q !in Neighbors(width, height, p)
  {
    NeighborsShape(width, height, p);
  }

  /** The neighbourhood holds at most eight cells, all on the board. */
  lemma NeighborsBounded(width: nat, height: nat, p: Position)
    requires InBounds(width, height, p)
    ensures Neighbors(width, height, p) <= Cells(width, height)
    ensures |Neighbors(width, height, p)| == |NeighborList(width, height, p)| <= 8
  {
    NeighborsShape(width, height, p);
    var ns := NeighborList(width, height, p);
    DistinctCard(ns);
    assert (set q | q in ns) == Neighbors(width, height, p);
  }

  /** Number of dinos in the neighbourhood of `p` (`get_neighboring_dino_count`). */
  function DinoCount(width: nat, height: nat, dinos: set<Position>, p: Position): (n: nat)
    requires InBounds(width, height, p)
    ensures n <= 8 && n <= |dinos|
  {
    NeighborsBounded(width, height, p);
    SubsetCard(Neighbors(width, height, p) * dinos, Neighbors(width, height, p));
    SubsetCard(Neighbors(width, height, p) * dinos, dinos);
    |Neighbors(width, height, p) * dinos|
  }

  /** The dinos adjacent to `p` in the usual sense: on the board, near, not `p`. */
  function AdjacentDinos(width: nat, height: nat, dinos: set<Position>, p: Position): (s: set<Position>)
    ensures forall q :: q in s ==> q in dinos && q != p && Near(p, q)
  {
    set q | q in dinos && InBounds(width, height, q) && Near(p, q) && q != p
  }

  /** For a cell that is not itself a dino, the clamp-based count equals the number
    * of adjacent dinos (the cell's membership in its own border neighbourhood never
    * adds to the count), and so is at most eight. */
  lemma DinoCountAdjacent(width: nat, height: nat, dinos: set<Position>, p: Position)
    requires InBounds(width, height, p) && p !in dinos
    ensures DinoCount(width, height, dinos, p) == |AdjacentDinos(width, height, dinos, p)|
    ensures DinoCount(width, height, dinos, p) <= 8
  {
    NeighborsShape(width, height, p);
    NeighborsBounded(width, height, p);
    assert Neighbors(width, height, p) * dinos == AdjacentDinos(width, height, dinos, p);
    SubsetCard(Neighbors(width, height, p) * dinos, Neighbors(width, height, p));
  }

  // ---------------------------------------------------------------------------
  // The region a cascading reveal uncovers

  /** `q` can still be uncovered: on the board, no dino, not flagged, not yet seen. */
  predicate Revealable(width: nat, height: nat, dinos: set<Position>, flags: set<Position>,
                       seen: set<Position>, q: Position)
  {
    InBounds(width, height, q) && q !in dinos && q !in flags && q !in seen
  }

  /** The cascade passes from `a` to `b`: no dino around `a`, and `b` is its neighbour. */
  predicate Spreads(width: nat, height: nat, dinos: set<Position>, a: Position, b: Position)
  {
    InBounds(width, height, a) && DinoCount(width, height, dinos, a) == 0 &&
    b in Neighbors(width, height, a)
  }

  /** A path of uncoverable cells along which the cascade spreads. */
  ghost predicate Trail(width: nat, height: nat, dinos: set<Position>, flags: set<Position>,
                        seen: set<Position>, path: seq<Position>)
  {
    && (forall i :: 0 <= i < |path| ==> Revealable(width, height, dinos, flags, seen, path[i]))
    && (forall i :: 0 < i < |path| ==> Spreads(width, height, dinos, path[i - 1], path[i]))
  }

  /** Revealing `p` when `seen` is uncovered reaches `q`. */
  ghost predicate Reaches(width: nat, height: nat, dinos: set<Position>, flags: set<Position>,
                          seen: set<Position>, p: Position, q: Position)
  {
    exists path :: |path| > 0 && path[0] == p && path[|path| - 1] == q &&
      Trail(width, height, dinos, flags, seen, path)
  }

  /** Every cell uncovered since `before` that has no dino around it has all of its
    * neighbours uncovered or flagged. */
  ghost predicate Closed(width: nat, height: nat, dinos: set<Position>, flags: set<Position>,
                         before: set<Position>, after: set<Position>)
  {
    forall q {:trigger DinoCount(width, height, dinos, q)} ::
      q in after && q !in before && InBounds(width, height, q) &&
                DinoCount(width, height, dinos, q) == 0 ==>
                  Neighbors(width, height, q) <= after + flags
  }

  lemma ReachesSelf(width: nat, height: nat, dinos: set<Position>, flags: set<Position>,
                    seen: set<Position>, p: Position)
    requires Revealable(width, height, dinos, flags, seen, p)
    ensures Reaches(width, height, dinos, flags, seen, p, p)
  {
    assert Trail(width, height, dinos, flags, seen, [p]);
  }

  /** What the cascade reaches from a neighbour `n` of a zero cell `p`, against a
    * larger uncovered set, it reaches from `p` as well. */
  lemma ReachesStep(width: nat, height: nat, dinos: set<Position>, flags: set<Position>,
                    seen: set<Position>, later: set<Position>, p: Position, n: Position)
    requires seen <= later
    requires Revealable(width, height, dinos, flags, seen, p)
    requires Spreads(width, height, dinos, p, n)
    ensures forall q :: Reaches(width, height, dinos, flags, later, n, q) ==>
      Reaches(width, height, dinos, flags, seen, p, q)
  {
    forall q | Reaches(width, height, dinos, flags, later, n, q)
      ensures Reaches(width, height, dinos, flags, seen, p, q)
    {
      var path :| |path| > 0 && path[0] == n && path[|path| - 1] == q &&
        Trail(width, height, dinos, flags, later, path);
      var longer := [p] + path;
      assert longer[|longer| - 1] == q;
      assert Trail(width, height, dinos, flags, seen, longer);
    }
  }

  /** From a cell with dinos around it, the cascade reaches nothing but the cell. */
  lemma {:induction false} ReachesCounted(width: nat, height: nat, dinos: set<Position>,
                                          flags: set<Position>, seen: set<Position>, p: Position)
    requires InBounds(width, height, p) && DinoCount(width, height, dinos, p) > 0
    ensures forall q :: Reaches(width, height, dinos, flags, seen, p, q) <==>
      q == p && Revealable(width, height, dinos, flags, seen, p)
  {
    forall q ensures Reaches(width, height, dinos, flags, seen, p, q) <==>
      q == p && Revealable(width, height, dinos, flags, seen, p)
    {
      if Reaches(width, height, dinos, flags, seen, p, q) {
        var path :| |path| > 0 && path[0] == p && path[|path| - 1] == q &&
          Trail(width, height, dinos, flags, seen, path);
        assert |path| == 1 || Spreads(width, height, dinos, path[0], path[1]);
      }
      if q == p && Revealable(width, height, dinos, flags, seen, p) {
        ReachesSelf(width, height, dinos, flags, seen, p);
      }
    }
  }

  /** A closed uncovered region that holds `p` holds everything reachable from `p`. */
  lemma {:induction false} ClosedHoldsReach(width: nat, height: nat, dinos: set<Position>,
                                            flags: set<Position>, seen: set<Position>,
                                            after: set<Position>, p: Position, q: Position)
    requires p in after && Closed(width, height, dinos, flags, seen, after)
    requires Reaches(width, height, dinos, flags, seen, p, q)
    ensures q in after
  {
    var path :| |path| > 0 && path[0] == p && path[|path| - 1] == q &&
      Trail(width, height, dinos, flags, seen, path);
    var k := 0;
    while k < |path| - 1
      invariant 0 <= k < |path| && path[k] in after
    {
      assert Revealable(width, height, dinos, flags, seen, path[k]);
      assert Spreads(width, height, dinos, path[k], path[k + 1]);
      assert Revealable(width, height, dinos, flags, seen, path[k + 1]);
      k := k + 1;
    }
  }

  /** Closure composes over successive uncoverings. */
  lemma ClosedTrans(width: nat, height: nat, dinos: set<Position>, flags: set<Position>,
                    a: set<Position>, b: set<Position>, c: set<Position>)
    requires b <= c
    requires Closed(width, height, dinos, flags, a, b) && Closed(width, height, dinos, flags, b, c)
    ensures Closed(width, height, dinos, flags, a, c)
  {
  }

  /** Closing the cascade: `p`'s own neighbours are covered too. */
  lemma ClosedStart(width: nat, height: nat, dinos: set<Position>, flags: set<Position>,
                    before: set<Position>, p: Position, after: set<Position>)
    requires Closed(width, height, dinos, flags, before + {p}, after)
    requires InBounds(width, height, p)
    requires Neighbors(width, height, p) <= after + flags
    ensures Closed(width, height, dinos, flags, before, after)
  {
  }
}
