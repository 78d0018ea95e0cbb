/** The unit tests of the engine, replayed on the model: each method builds the
  * board a test builds and states the outcome the test asserts. */
module Scenarios {
  import opened Field
  import opened Engine

  /** A board without dinos, as `Dinomite::new(width, height, 0)` makes it. */
  method EmptyBoard(width: nat, height: nat) returns (d: Dinomite)
    ensures fresh(d) && d.Valid()
    ensures d.width == width && d.height == height
    ensures d.dinos == {} && d.seen == {} && d.flags == {} && !d.gameOver && !d.won
  {
    d := new Dinomite(width, height, 0, [[]]);
  }

  /** `test_neighbors`: the corner of a 10 x 10 board is its own neighbour. */
  lemma CornerNeighbors()
    ensures Neighbors(10, 10, Position(0, 0)) ==
            {Position(0, 0), Position(0, 1), Position(1, 0), Position(1, 1)}
  {
  }

  /** `test_surrounding`: three dinos around the uncovered cell. */
  method Surrounding() returns (r: PositionResult)
    ensures r == DinosInSurrounding(3)
  {
    var d := EmptyBoard(10, 10);
    d.dinos := {Position(0, 0), Position(1, 0), Position(1, 1)};
    assert Neighbors(10, 10, Position(0, 1)) * d.dinos == d.dinos;
    r := d.CheckPosition(Position(0, 1));
  }

  /** `test_toggle_flag`: a flag protects its cell, a second toggle takes it away,
    * and two more flags fit beside two dinos. */
  method ToggleFlags() returns (first: PositionResult, n: nat)
    ensures first == Flagged && n == 2
  {
    var d := EmptyBoard(10, 10);
    d.dinos := {Position(9, 9), Position(8, 8)};
    d.ToggleFlag(Position(0, 0));
    first := d.CheckPosition(Position(0, 0));
    d.ToggleFlag(Position(0, 0));
    d.ToggleFlag(Position(1, 0));
    d.ToggleFlag(Position(1, 1));
    assert d.flags == {Position(1, 0), Position(1, 1)};
    n := |d.flags|;
  }

  /** `test_check_get_dino_count`: two dinos next to the uncovered cell. */
  method DinoCountAfterReveal() returns (count: nat)
    ensures count == 2
  {
    var d := EmptyBoard(5, 5);
    d.dinos := {Position(0, 0), Position(0, 1)};
    var _ := d.CheckPosition(Position(1, 1));
    assert Neighbors(5, 5, Position(1, 1)) * d.dinos == d.dinos;
    count := d.NeighboringDinoCount(Position(1, 1));
  }

  /** `test_check_loose`: uncovering the dino ends the game as a loss. */
  method Loss() returns (over: bool, won: bool)
    ensures over && !won
  {
    var d := EmptyBoard(3, 3);
    d.dinos := {Position(1, 1)};
    var _ := d.CheckPosition(Position(1, 1));
    over, won := d.IsGameOver(), d.IsWon();
  }

  /** `test_check_flag_click_protection`: a flagged dino cannot be uncovered. */
  method FlagProtection() returns (r: PositionResult, over: bool)
    ensures r == Flagged && !over
  {
    var d := EmptyBoard(5, 5);
    d.dinos := {Position(0, 0)};
    d.flags := {Position(0, 0)};
    r := d.CheckPosition(Position(0, 0));
    over := d.IsGameOver();
  }

  /** Uncovering a cell `p` next to `dino` leaves `p` uncovered and nothing else
    * newly uncovered, whether or not `p` was uncovered before. */
  method RevealNextToDino(d: Dinomite, p: Position, dino: Position) returns (r: PositionResult)
    requires d.Valid() && d.gameOver == d.won && InBounds(d.width, d.height, p)
    requires p !in d.dinos && p !in d.flags
    requires dino in d.dinos && InBounds(d.width, d.height, dino) && Near(p, dino)
    modifies d
    ensures d.Valid() && d.seen == old(d.seen) + {p}
    ensures d.dinos == old(d.dinos) && d.flags == old(d.flags) && d.gameOver == d.won
    ensures p !in old(d.seen) ==> r == DinosInSurrounding(DinoCount(d.width, d.height, d.dinos, p))
  {
    assert p in d.Safe();
    if p !in d.seen {
      NearIsNeighbor(d.width, d.height, p, dino);
      assert dino in Neighbors(d.width, d.height, p) * d.dinos;
      ReachesCounted(d.width, d.height, d.dinos, d.flags, d.seen, p);
    }
    r := d.CheckPosition(p);
  }

  /** With the only dino of a 3 x 3 board in the middle and flagged, uncovering the
    * other eight cells in any order, repeats allowed, wins the game. */
  method WinInAnyOrder(order: seq<Position>) returns (over: bool, won: bool)
    requires Elems(order) == Cells(3, 3) - {Position(1, 1)}
    ensures over && won
  {
    var d := EmptyBoard(3, 3);
    var dino := Position(1, 1);
    d.dinos := {dino};
    d.flags := {dino};
    ElemsMembers(order);
    for i := 0 to |order|
      invariant d.Valid() && d.width == 3 && d.height == 3
      invariant d.dinos == {dino} && d.flags == {dino} && d.gameOver == d.won
      invariant d.seen == Elems(order[..i])
    {
      ElemsStep(order, i);
      assert order[i] in Elems(order);
      var _ := RevealNextToDino(d, order[i], dino);
    }
    ElemsWhole(order);
    assert d.seen == d.Safe();
    assert Position(0, 0) in d.seen;
    over, won := d.IsGameOver(), d.IsWon();
  }

  /** `test_check_win`: the order in which the test uncovers the eight cells. */
  lemma WinOrderCovers()
    ensures Elems([Position(0, 0), Position(0, 1), Position(0, 2), Position(1, 0),
                   Position(1, 2), Position(2, 0), Position(2, 1), Position(2, 2)])
            == Cells(3, 3) - {Position(1, 1)}
  {
    var order := [Position(0, 0), Position(0, 1), Position(0, 2), Position(1, 0),
                  Position(1, 2), Position(2, 0), Position(2, 1), Position(2, 2)];
    ElemsMembers(order);
    forall q | q in Cells(3, 3) - {Position(1, 1)} ensures q in Elems(order) {
      assert q in order;
    }
  }

  /** `test_check_win` itself. */
  method Win() returns (over: bool, won: bool)
    ensures over && won
  {
    WinOrderCovers();
    over, won := WinInAnyOrder([Position(0, 0), Position(0, 1), Position(0, 2), Position(1, 0),
                                Position(1, 2), Position(2, 0), Position(2, 1), Position(2, 2)]);
  }

  /** On a 5 x 5 board whose only dino sits in the corner, a region that holds the
    * opposite corner and is closed under the cascade holds every cell at `x, y`
    * but the dino's. */
  lemma {:induction false} CornerRegion(seen: set<Position>, x: nat, y: nat)
    requires Position(4, 4) in seen
    requires Closed(5, 5, {Position(0, 0)}, {}, {}, seen)
    requires x < 5 && y < 5 && (x, y) != (0, 0)
    ensures Position(x, y) in seen
    decreases 8 - x - y
  {
    if (x, y) != (4, 4) {
      var s := if x == 4 then Position(4, y + 1)
               else if y == 4 then Position(x + 1, 4)
               else Position(x + 1, y + 1);
      CornerRegion(seen, s.x, s.y);
      FarIsNoNeighbor(5, 5, s, Position(0, 0));
      assert Neighbors(5, 5, s) * {Position(0, 0)} == {};
      assert DinoCount(5, 5, {Position(0, 0)}, s) == 0;
      NearIsNeighbor(5, 5, s, Position(x, y));
    }
  }

  /** `test_check_pos_clear`: uncovering the far corner of a 5 x 5 board with one
    * dino in the other corner uncovers all 24 other cells, which wins the game. */
  method ClearCascade() returns (n: nat, won: bool)
    ensures n == 24 && won
  {
    var d := EmptyBoard(5, 5);
    var dino := Position(0, 0);
    d.dinos := {dino};
    var _ := d.CheckPosition(Position(4, 4));
    assert d.seen == Cells(5, 5) - {dino} by {
      forall q | q in Cells(5, 5) - {dino} ensures q in d.seen {
        CornerRegion(d.seen, q.x, q.y);
      }
    }
    CellsCount(5, 5);
    n, won := |d.seen|, d.IsWon();
  }

  /** `test_repr`: a 10 x 10 board asked for five dinos is drawn, all covered, and
    * holds five dinos. */
  method FiveDinos(batches: seq<seq<Position>>) returns (d: Dinomite, board: seq<seq<CellView>>)
    requires |batches| > 0 && RandomBatches(10, 10, 5, batches) && 5 <= |Drawn(batches)|
    ensures |d.dinos| == 5
    ensures |board| == 10 && forall y :: 0 <= y < 10 ==> |board[y]| == 10
    ensures forall y, x :: 0 <= y < 10 && 0 <= x < 10 ==> board[y][x] == Hidden
  {
    d := new Dinomite(10, 10, 5, batches);
    board := d.Render();
  }

  /** `test_num_dinos`: a 10 x 10 board asked for six dinos has six, whatever the
    * random draws were. */
  method SixDinos(batches: seq<seq<Position>>) returns (n: nat)
    requires |batches| > 0 && RandomBatches(10, 10, 6, batches) && 6 <= |Drawn(batches)|
    ensures n == 6
  {
    var d := new Dinomite(10, 10, 6, batches);
    n := d.NumDinos();
  }

  /** `test_repr2`: asking for as many dinos as there are cells fills the board. */
  method FullBoard(batches: seq<seq<Position>>) returns (d: Dinomite)
    requires |batches| > 0 && RandomBatches(10, 10, 100, batches) && 100 <= |Drawn(batches)|
    ensures d.dinos == Cells(10, 10) && d.Safe() == {}
  {
    d := new Dinomite(10, 10, 100, batches);
    CellsCount(10, 10);
    SubsetEqualCard(d.dinos, Cells(10, 10));
  }
}
