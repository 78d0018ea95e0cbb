/** The game engine: a board of hidden dinos, the cells uncovered so far, the
  * flags the player has placed, and the two terminal flags. */
module Engine {
  import opened Field

  /** What a reveal reports. */
  datatype PositionResult =
    | Over                          // the game has already ended
    | Clear                         // no dinos around (or the cell was already uncovered)
    | DinosInSurrounding(n: nat)    // this many dinos around
    | Dino                          // a dino: the game is lost
    | Flagged                       // the cell is protected by a flag

  /** How the board shows one cell; which glyph stands for each is presentation. */
  datatype CellView =
    | Hidden               // not uncovered (and, after a loss, no dino)
    | Flag                 // a flag, while the game is running
    | Revealed(count: nat) // uncovered, with the number of dinos around it
    | ShownDino            // an unflagged dino, once the game has ended
    | CorrectFlag          // a flag on a dino, once the game has ended
    | WrongFlag            // a flag on a cell without a dino, after a loss
    | Anomaly              // a flag on a cell without a dino after a win

  /** The positions of a sequence, as a set. */
  function Elems(s: seq<Position>): set<Position>
  {
    if s == [] then {} else Elems(s[..|s| - 1]) + {s[|s| - 1]}
  }

  lemma ElemsStep(s: seq<Position>, k: nat)
    requires k < |s|
    ensures Elems(s[..k + 1]) == Elems(s[..k]) + {s[k]}
  {
    assert s[..k + 1][..k] == s[..k];
  }

  lemma ElemsWhole(s: seq<Position>)
    ensures Elems(s[..|s|]) == Elems(s)
  {
    assert s[..|s|] == s;
  }

  lemma {:induction false} ElemsMembers(s: seq<Position>)
    ensures forall q :: q in Elems(s) <==> q in s
  {
    if s != [] {
      ElemsMembers(s[..|s| - 1]);
      assert s == s[..|s| - 1] + [s[|s| - 1]];
    }
  }

  lemma {:induction false} ElemsPrefix(s: seq<Position>, k: nat)
    requires k <= |s|
    ensures Elems(s[..k]) <= Elems(s)
  {
    if k < |s| {
      ElemsPrefix(s[..|s| - 1], k);
      assert s[..|s| - 1][..k] == s[..k];
    } else {
      assert s[..k] == s;
    }
  }

  lemma {:induction false} ElemsOnBoard(width: nat, height: nat, s: seq<Position>)
    requires forall i :: 0 <= i < |s| ==> InBounds(width, height, s[i])
    ensures Elems(s) <= Cells(width, height)
  {
    if s != [] {
      ElemsOnBoard(width, height, s[..|s| - 1]);
    }
  }

  /** The union of all positions in a run of random batches. */
  function Drawn(batches: seq<seq<Position>>): set<Position>
  {
    if batches == [] then {}
    else Drawn(batches[..|batches| - 1]) + Elems(batches[|batches| - 1])
  }

  lemma DrawnStep(batches: seq<seq<Position>>, k: nat)
    requires k < |batches|
    ensures Drawn(batches[..k + 1]) == Drawn(batches[..k]) + Elems(batches[k])
  {
    assert batches[..k + 1][..k] == batches[..k];
  }

  /** Each batch stands for the zip of two `get_random_numbers` vectors of the
    * requested length: every coordinate lies within the board. */
  predicate RandomBatches(width: nat, height: nat, count: nat, batches: seq<seq<Position>>): (ok: bool)
    ensures ok ==> forall b, i :: 0 <= b < |batches| && 0 <= i < |batches[b]| ==>
      batches[b][i] in Cells(width, height)
  {
    forall b :: 0 <= b < |batches| ==>
      |batches[b]| == count && forall i :: 0 <= i < count ==> InBounds(width, height, batches[b][i])
  }

  lemma {:induction false} DrawnOnBoard(width: nat, height: nat, count: nat,
                                        batches: seq<seq<Position>>, k: nat)
    requires RandomBatches(width, height, count, batches) && k <= |batches|
    ensures Drawn(batches[..k]) <= Cells(width, height)
  {
    if k > 0 {
      DrawnOnBoard(width, height, count, batches, k - 1);
      DrawnStep(batches, k - 1);
      ElemsOnBoard(width, height, batches[k - 1]);
    } else {
      assert batches[..k] == [];
    }
  }

  /** The `for` loop over one batch: insert each position, stop once `count` dinos
    * are placed. `taken` is how many positions of the batch were inserted. */
  method InsertBatch(d: set<Position>, batch: seq<Position>, count: nat)
    returns (d': set<Position>, taken: nat)
    requires |d| < count
    ensures taken <= |batch| && d' == d + Elems(batch[..taken])
    ensures |d'| <= count
    ensures taken < |batch| ==> |d'| == count
    ensures |d'| < count ==> d' == d + Elems(batch)
  {
    d' := d;
    taken := 0;
    while taken < |batch|
      invariant taken <= |batch| && d' == d + Elems(batch[..taken])
      invariant |d'| < count
    {
      ElemsStep(batch, taken);
      d' := d' + {batch[taken]};
      taken := taken + 1;
      if |d'| == count {
        return;
      }
    }
    assert batch[..taken] == batch;
  }

  /** The rejection sampling of `Dinomite::new`: the first batch, then further
    * batches while fewer than `count` distinct dinos are placed. */
  method PlaceDinos(width: nat, height: nat, count: nat, batches: seq<seq<Position>>)
    returns (dinos: set<Position>, used: nat)
    requires |batches| > 0 && RandomBatches(width, height, count, batches)
    requires count <= |Drawn(batches)|
    ensures 0 < used <= |batches|
    ensures |dinos| == count
    ensures dinos <= Drawn(batches[..used]) && dinos <= Cells(width, height)
  {
    dinos := {};
    used := 1;
    DrawnStep(batches, 0);
    if 0 < count {
      var taken;
      dinos, taken := InsertBatch(dinos, batches[0], count);
      ElemsPrefix(batches[0], taken);
      assert batches[..0] == [];
    }
    assert used == |batches| ==> batches[..used] == batches;
    while |dinos| < count
      invariant 0 < used <= |batches|
      invariant dinos <= Drawn(batches[..used]) && |dinos| <= count
      invariant |dinos| < count ==> dinos == Drawn(batches[..used]) && used < |batches|
      decreases |batches| - used
    {
      var taken;
      dinos, taken := InsertBatch(dinos, batches[used], count);
      ElemsPrefix(batches[used], taken);
      DrawnStep(batches, used);
      used := used + 1;
      assert used == |batches| ==> batches[..used] == batches;
    }
    DrawnOnBoard(width, height, count, batches, used);
  }

  /** The flag set after `toggle_flag(p)`: unchanged once the game is over or on an
    * uncovered cell; a flag is removed; a new flag only within the budget of one
    * flag per dino. */
  function FlagsAfterToggle(flags: set<Position>, dinos: set<Position>, seen: set<Position>,
                            finished: bool, p: Position): (r: set<Position>)
    ensures finished || p in seen ==> r == flags
    ensures r == flags || r == flags - {p} || r == flags + {p}
    ensures |flags| <= |dinos| ==> |r| <= |dinos|
    ensures flags !! seen ==> r !! seen
    ensures r != flags ==> (p in r <==> p !in flags)
    ensures !finished && p !in seen && p in flags ==> r == flags - {p}
    ensures !finished && p !in seen && p !in flags && |flags| < |dinos| ==> r == flags + {p}
    ensures !finished && p !in seen && p !in flags && |flags| == |dinos| ==> r == flags
  {
    if finished then flags
    else if p in seen then flags
    else if p in flags then flags - {p}
    else if |flags| == |dinos| then flags
    else flags + {p}
  }

  /** A toggle that changed the flags is undone by toggling the same cell again. */
  lemma ToggleTwice(flags: set<Position>, dinos: set<Position>, seen: set<Position>,
                    finished: bool, p: Position)
    requires |flags| <= |dinos|
    requires FlagsAfterToggle(flags, dinos, seen, finished, p) != flags
    ensures FlagsAfterToggle(FlagsAfterToggle(flags, dinos, seen, finished, p),
                             dinos, seen, finished, p) == flags
  {
  }

  /** On a covered, unflagged cell of a running game with flags to spare, the first
    * toggle plants a flag on `p` and the second takes it away again. */
  lemma PlantAndRemoveFlag(flags: set<Position>, dinos: set<Position>, seen: set<Position>,
                           p: Position)
    requires p !in seen && p !in flags && |flags| < |dinos|
    ensures p in FlagsAfterToggle(flags, dinos, seen, false, p)
    ensures FlagsAfterToggle(FlagsAfterToggle(flags, dinos, seen, false, p),
                             dinos, seen, false, p) == flags
  {
  }

  /** `Dinomite::default()`: a 9 x 8 board with nine dinos. */
  method DefaultBoard(batches: seq<seq<Position>>) returns (d: Dinomite)
    requires |batches| > 0 && RandomBatches(9, 8, 9, batches) && 9 <= |Drawn(batches)|
    ensures d.Valid() && d.width == 9 && d.height == 8 && |d.dinos| == 9
    ensures d.seen == {} && d.flags == {} && !d.gameOver && !d.won
  {
    d := new Dinomite(9, 8, 9, batches);
  }

  class Dinomite {
    const width: nat
    const height: nat
    var seen: set<Position>
    var dinos: set<Position>
    var flags: set<Position>
    var gameOver: bool
    var won: bool

    /** The cells without a dino. */
    ghost function Safe(): set<Position>
      reads this
    {
      Cells(width, height) - dinos
    }

    /** The state invariant every operation keeps. */
    ghost predicate Valid()
      reads this
    {
      && dinos <= Cells(width, height)
      && flags <= Cells(width, height)
      && seen <= Safe()
      && seen !! flags
      && |flags| <= |dinos|
      && (won ==> gameOver)
      && (won <==> seen == Safe() && seen != {})
    }

    /** `Dinomite::new(width, height, numDinos)`, the random draws given as `batches`. */
    constructor (width: nat, height: nat, numDinos: nat, batches: seq<seq<Position>>)
      requires |batches| > 0
      requires RandomBatches(width, height,
                             if numDinos <= height * width then numDinos else height * width, batches)
      requires (if numDinos <= height * width then numDinos else height * width) <= |Drawn(batches)|
      ensures Valid()
      ensures this.width == width && this.height == height
      ensures |dinos| == if numDinos <= height * width then numDinos else height * width
      ensures seen == {} && flags == {} && !gameOver && !won
    {
      var count := if numDinos <= height * width then numDinos else height * width;
      var placed, _ := PlaceDinos(width, height, count, batches);
      this.width := width;
      this.height := height;
      seen := {};
      dinos := placed;
      flags := {};
      gameOver := false;
      won := false;
    }

    function NumDinos(): (n: nat)
      reads this
      requires Valid()
      ensures n <= width * height
    {
      OnBoardCount(width, height, dinos);
      |dinos|
    }

    function IsGameOver(): (over: bool)
      reads this
      requires Valid()
      ensures !over ==> !won
    {
      gameOver
    }

    function IsWon(): (w: bool)
      reads this
      requires Valid()
      ensures w ==> IsGameOver()
      ensures w <==> seen == Safe() && seen != {}
    {
      won
    }

    /** `toggle_flag`: put a flag on a covered cell, or take it away again; no more
      * flags than dinos, and nothing changes once the game is over. */
    method ToggleFlag(p: Position)
      requires Valid() && InBounds(width, height, p)
      modifies this
      ensures Valid()
      ensures flags == FlagsAfterToggle(old(flags), dinos, seen, old(gameOver || won), p)
      ensures seen == old(seen) && dinos == old(dinos)
      ensures gameOver == old(gameOver) && won == old(won)
    {
      if gameOver || won {
        return;
      }
      if p in seen {
        return;
      }
      if p in flags {
        flags := flags - {p};
      } else {
        if |flags| == |dinos| {
          return;
        }
        flags := flags + {p};
      }
    }

    /** `get_neighboring_dino_count`: count the dinos among the neighbours of `p`. */
    method NeighboringDinoCount(p: Position) returns (count: nat)
      requires InBounds(width, height, p)
      ensures count == |Neighbors(width, height, p) * dinos|
      ensures p !in dinos ==> count == |AdjacentDinos(width, height, dinos, p)| <= 8
    {
      var ns := NeighborList(width, height, p);
      count := 0;
      ghost var visited: set<Position> := {};
      for i := 0 to |ns|
        invariant visited == Elems(ns[..i])
        invariant count == |visited * dinos|
      {
        ElemsStep(ns, i);
        ElemsMembers(ns[..i]);
        assert ns[i] !in visited;
        if ns[i] in dinos {
          assert (visited + {ns[i]}) * dinos == visited * dinos + {ns[i]};
          count := count + 1;
        } else {
          assert (visited + {ns[i]}) * dinos == visited * dinos;
        }
        visited := visited + {ns[i]};
      }
      ElemsWhole(ns);
      ElemsMembers(ns);
      assert visited == Neighbors(width, height, p);
      if p !in dinos {
        DinoCountAdjacent(width, height, dinos, p);
      }
    }

    /** Every cell uncovered since `before` is reached by the cascade from `p`, and
      * the uncovered region is closed under the cascade. */
    ghost predicate RevealedFrom(before: set<Position>, p: Position)
      reads this
    {
      ReachedFrom(before, p) && Closed(width, height, dinos, flags, before, seen)
    }

    /** Every cell uncovered since `before` is reached by the cascade from `p`. */
    ghost predicate ReachedFrom(before: set<Position>, p: Position)
      reads this
    {
      forall q {:trigger Reaches(width, height, dinos, flags, before, p, q)} ::
        q in seen && q !in before ==> Reaches(width, height, dinos, flags, before, p, q)
    }

    /** The uncovered cells are exactly those of `before` and those the cascade
      * reaches from `p`. */
    ghost predicate UncoveredFrom(before: set<Position>, p: Position)
      reads this
    {
      forall q :: q in seen <==> q in before || Reaches(width, height, dinos, flags, before, p, q)
    }

    /** A reveal from `p` that keeps `p` uncovered uncovers the whole region it reaches. */
    lemma RevealedCovers(before: set<Position>, p: Position)
      requires RevealedFrom(before, p) && p in seen && before <= seen
      ensures UncoveredFrom(before, p)
    {
      forall q | Reaches(width, height, dinos, flags, before, p, q) ensures q in seen {
        ClosedHoldsReach(width, height, dinos, flags, before, seen, p, q);
      }
    }

    /** `check_position`: reveal `p`, cascading over the neighbours of a cell with
      * no dinos around it. */
    method CheckPosition(p: Position) returns (r: PositionResult)
      requires Valid() && InBounds(width, height, p)
      modifies this
      decreases width * height - |seen|, 3
      ensures Valid()
      ensures dinos == old(dinos) && flags == old(flags) && old(seen) <= seen
      ensures RevealedFrom(old(seen), p)
      ensures old(gameOver == won) && p !in dinos ==> gameOver == won && (p in seen || p in flags)
      ensures old(won || gameOver) ==>
        r == Over && seen == old(seen) && gameOver == old(gameOver) && won == old(won)
      ensures !old(won || gameOver) && p in flags ==>
        r == Flagged && seen == old(seen) && !gameOver && !won
      ensures !old(won || gameOver) && p !in flags && p in dinos ==>
        r == Dino && seen == old(seen) && gameOver && !won
      ensures !old(won || gameOver) && p !in flags && p !in dinos && p in old(seen) ==>
        r == Clear && seen == old(seen) && !gameOver && !won
      ensures !old(won || gameOver) && Revealable(width, height, dinos, flags, old(seen), p) ==>
        && p in seen
        && r == (if DinoCount(width, height, dinos, p) == 0 then Clear
                 else DinosInSurrounding(DinoCount(width, height, dinos, p)))
        && (forall q :: q in seen <==>
              q in old(seen) || Reaches(width, height, dinos, flags, old(seen), p, q))
        && gameOver == won
    {
      if won || gameOver {
        return Over;
      }
      if p in flags {
        return Flagged;
      }
      if p in dinos {
        gameOver := true;
        return Dino;
      }
      if p in seen {
        return Clear;
      }
      r := Uncover(p);
    }

    /** `check_position` on a covered, unflagged, safe cell of a running game: the win
      * prediction, the count, and the cascade when the count is zero. */
    method Uncover(p: Position) returns (r: PositionResult)
      requires Valid() && !won && !gameOver
      requires Revealable(width, height, dinos, flags, seen, p)
      modifies this
      decreases width * height - |seen|, 2
      ensures Valid()
      ensures dinos == old(dinos) && flags == old(flags) && old(seen) <= seen
      ensures RevealedFrom(old(seen), p)
      ensures p in seen && gameOver == won
      ensures r == (if DinoCount(width, height, dinos, p) == 0 then Clear
                    else DinosInSurrounding(DinoCount(width, height, dinos, p)))
      ensures UncoveredFrom(old(seen), p)
    {
      // the count reads only `dinos`, so taking it before the win prediction changes nothing
      var surrounding := NeighboringDinoCount(p);
      LastSafeCell(width, height, dinos, seen, p);
      // usize arithmetic: p is an in-bounds cell without a dino, so this cannot underflow
      var lastButOne: nat := width * height - |dinos| - 1;
      // both flags are still false here, so the `if` that sets them sets them to its condition
      won := |seen| == lastButOne && p !in dinos;
      gameOver := won;
      seen := seen + {p};
      if surrounding == 0 {
        Cascade(p, old(seen));
        r := Clear;
      } else {
        ReachesCounted(width, height, dinos, flags, old(seen), p);
        r := DinosInSurrounding(surrounding);
      }
      RevealedCovers(old(seen), p);
    }

    /** The recursive part of `check_position` for a cell `p` without dinos around
      * it, just uncovered: check every neighbour in turn. */
    method Cascade(p: Position, ghost before: set<Position>)
      requires Valid() && Revealable(width, height, dinos, flags, before, p)
      requires DinoCount(width, height, dinos, p) == 0
      requires seen == before + {p} && gameOver == won
      modifies this
      decreases width * height - |seen| + 1, 1
      ensures Valid()
      ensures dinos == old(dinos) && flags == old(flags) && old(seen) <= seen
      ensures gameOver == won
      ensures RevealedFrom(before, p)
    {
      var ns := NeighborList(width, height, p);
      NeighborsBounded(width, height, p);
      ReachesSelf(width, height, dinos, flags, before, p);
      OnBoardCount(width, height, seen);
      ghost var start := seen;
      for i := 0 to |ns|
        invariant Cascading(before, p, start, Elems(ns[..i]))
        invariant dinos == old(dinos) && flags == old(flags)
      {
        SubsetCard(start, seen);
        OnBoardCount(width, height, seen);
        assert |start| <= |seen| <= width * height;
        ElemsStep(ns, i);
        VisitNeighbor(p, ns[i], before, start, Elems(ns[..i]));
      }
      ElemsWhole(ns);
      ElemsMembers(ns);
      ClosedStart(width, height, dinos, flags, before, p, seen);
    }

    /** What holds throughout the cascade from `p`: the cells uncovered since
      * `before` are reached from `p`, those uncovered since `start` are closed,
      * and the neighbours in `covered` are uncovered or flagged. */
    ghost predicate Cascading(before: set<Position>, p: Position, start: set<Position>,
                              covered: set<Position>)
      reads this
    {
      && Valid() && gameOver == won
      && Revealable(width, height, dinos, flags, before, p)
      && DinoCount(width, height, dinos, p) == 0
      && before + {p} <= start <= seen
      && ReachedFrom(before, p)
      && Closed(width, height, dinos, flags, start, seen)
      && covered <= seen + flags
    }

    /** One step of the cascade loop: `check_position` on the neighbour `n` of `p`. */
    method VisitNeighbor(p: Position, n: Position, ghost before: set<Position>,
                         ghost start: set<Position>, ghost covered: set<Position>)
      requires Cascading(before, p, start, covered) && n in Neighbors(width, height, p)
      modifies this
      decreases width * height - |seen| + 1, 0
      ensures Cascading(before, p, start, covered + {n})
      ensures dinos == old(dinos) && flags == old(flags) && old(seen) <= seen
    {
      NeighborsBounded(width, height, p);
      assert n !in dinos by {
        assert n in Neighbors(width, height, p) * dinos ==> false;
      }
      OnBoardCount(width, height, seen);
      var _ := CheckPosition(n);
      ReachesStep(width, height, dinos, flags, before, old(seen), p, n);
      ClosedTrans(width, height, dinos, flags, start, old(seen), seen);
    }

    /** How the board shows cell `p`, by the state of the game as `Display::fmt`
      * decides it: won, lost, or still running. */
    function CellAt(p: Position): (c: CellView)
      reads this
      requires InBounds(width, height, p)
      ensures c == Flag <==> !gameOver && p in flags
      ensures c == CorrectFlag <==> gameOver && p in flags && p in dinos
      ensures c == WrongFlag <==> gameOver && !won && p in flags && p !in dinos
      ensures c == Anomaly <==> gameOver && won && p in flags && p !in dinos
      ensures c == ShownDino <==> gameOver && p !in flags && p in dinos
      ensures c.Revealed? <==> p !in flags && p in seen && (!gameOver || p !in dinos)
      ensures c.Revealed? ==> c.count == DinoCount(width, height, dinos, p)
      ensures c == Hidden <==> p !in flags && p !in seen && (!gameOver || p !in dinos)
    {
      if gameOver && won then
        if p in flags then (if p in dinos then CorrectFlag else Anomaly)
        else if p in dinos then ShownDino
        else if p in seen then Revealed(DinoCount(width, height, dinos, p))
        else Hidden
      else if gameOver then
        if p in flags then (if p !in dinos then WrongFlag else CorrectFlag)
        else if p in dinos then ShownDino
        else if p in seen then Revealed(DinoCount(width, height, dinos, p))
        else Hidden
      else
        if p in flags then Flag
        else if p in seen then Revealed(DinoCount(width, height, dinos, p))
        else Hidden
    }

    /** One cell of `Display::fmt`: the case `CellAt` decides, with the dinos around an
      * uncovered cell counted by the loop of `get_neighboring_dino_count`. */
    method ShowCell(p: Position) returns (c: CellView)
      requires InBounds(width, height, p)
      ensures c == CellAt(p)
    {
      c := CellAt(p);
      if c.Revealed? {
        var count := NeighboringDinoCount(p);
        c := Revealed(count);
      }
    }

    /** One row of `Display::fmt`, left to right. */
    method RenderRow(y: nat) returns (row: seq<CellView>)
      requires y < height
      ensures |row| == width
      ensures forall x :: 0 <= x < width ==> row[x] == CellAt(Position(x, y))
    {
      row := [];
      for x := 0 to width
        invariant |row| == x
        invariant forall i :: 0 <= i < x ==> row[i] == CellAt(Position(i, y))
      {
        var c := ShowCell(Position(x, y));
        row := row + [c];
      }
    }

    /** `Display::fmt`: the board row by row, top to bottom, left to right. */
    method Render() returns (board: seq<seq<CellView>>)
      ensures |board| == height
      ensures forall y :: 0 <= y < height ==> |board[y]| == width
      ensures forall y, x :: 0 <= y < height && 0 <= x < width ==>
                board[y][x] == CellAt(Position(x, y))
    {
      board := [];
      for y := 0 to height
        invariant |board| == y
        invariant forall j :: 0 <= j < y ==> |board[j]| == width
        invariant forall j, x :: 0 <= j < y && 0 <= x < width ==>
                    board[j][x] == CellAt(Position(x, j))
      {
        var row := RenderRow(y);
        board := board + [row];
      }
    }

    /** A won game has flags on dinos only: the "should never happen" glyph does
      * not appear, and every cell is uncovered or a dino. */
    lemma WonBoard(p: Position)
      requires Valid() && won && InBounds(width, height, p)
      ensures flags <= dinos
      ensures CellAt(p) != Anomaly && CellAt(p) != Hidden
    {
    }

    /** After a loss every dino is shown, flagged or not. */
    lemma LostBoard(p: Position)
      requires Valid() && gameOver && !won && InBounds(width, height, p)
      ensures p in dinos <==> CellAt(p) == ShownDino || CellAt(p) == CorrectFlag
    {
    }

    /** While the game runs no dino is shown. */
    lemma RunningBoard(p: Position)
      requires Valid() && !gameOver && InBounds(width, height, p)
      ensures CellAt(p).Hidden? || CellAt(p).Flag? || CellAt(p).Revealed?
    {
    }
  }
}
