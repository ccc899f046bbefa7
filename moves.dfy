/**
 * Moves: whether a cell is playable, the row-major listing of the available
 * moves, and the decoding and playing of a three-letter move.
 *
 * Both direction loops of the source run deltaRow from -1 to 1 and, inside,
 * deltaCol from -1 to 1, skipping (0, 0). A direction (dr, dc) is therefore
 * visited at step Rank(dr, dc) = 3 * dr + dc, and the loop invariants speak
 * of the directions whose rank lies below the current one.
 */
module Moves {
  import opened Board
  import opened Rays

  // ---------------------------------------------------------------------------
  // The eight directions and the order the loops visit them in

  /** The position of a direction in the order of the nested direction loops. */
  function Rank(dr: int, dc: int): int
  {
    3 * dr + dc
  }

  /** The pairs (dr, dc) the direction loops act on: both in -1..1, not both 0. */
  function Directions(): set<(int, int)>
  {
    set dr, dc | -1 <= dr <= 1 && -1 <= dc <= 1 && NonZero(dr, dc) :: (dr, dc)
  }

  /** The loop order ranks the directions -4..4 without a tie, skipping 0, the rank of (0, 0). */
  lemma RankOrder()
    ensures forall dr, dc :: IsDirection(dr, dc) ==> -4 <= Rank(dr, dc) <= 4 && Rank(dr, dc) != 0
    ensures forall dr, dc, er, ec :: IsDirection(dr, dc) && IsDirection(er, ec) && Rank(dr, dc) == Rank(er, ec)
              ==> dr == er && dc == ec
  {
  }

  /** There are exactly eight directions. */
  lemma EightDirections()
    ensures Directions() == {(-1, -1), (-1, 0), (-1, 1), (0, -1), (0, 1), (1, -1), (1, 0), (1, 1)}
    ensures |Directions()| == 8
    ensures forall d :: d in Directions() <==> IsDirection(d.0, d.1)
  {
    var d := {(-1, -1), (-1, 0), (-1, 1), (0, -1), (0, 1), (1, -1), (1, 0), (1, 1)};
    forall p | p in Directions()
      ensures p in d
    {
    }
    assert Directions() == d;
    assert |{(-1, -1), (-1, 0), (-1, 1), (0, -1)}| == 4;
    assert |{(0, 1), (1, -1), (1, 0), (1, 1)}| == 4;
    assert d == {(-1, -1), (-1, 0), (-1, 1), (0, -1)} + {(0, 1), (1, -1), (1, 0), (1, 1)};
  }

  // ---------------------------------------------------------------------------
  // Playability

  /** Playing `colour` at (row, col) captures in at least one direction. */
  ghost predicate Playable(g: Grid, n: int, row: int, col: int, colour: char)
    requires IsSquare(g, n)
  {
    exists dr, dc {:trigger LegalInDirection(g, n, row, col, colour, dr, dc)} ::
      IsDirection(dr, dc) && LegalInDirection(g, n, row, col, colour, dr, dc)
  }

  /** Some direction visited before step `bound` of the direction loops captures. */
  ghost predicate PlayableBelow(g: Grid, n: int, row: int, col: int, colour: char, bound: int)
    requires IsSquare(g, n)
  {
    exists dr, dc {:trigger LegalInDirection(g, n, row, col, colour, dr, dc)} ::
      IsDirection(dr, dc) && Rank(dr, dc) < bound && LegalInDirection(g, n, row, col, colour, dr, dc)
  }

  /** Visiting one more direction adds that direction to what has been found. */
  lemma PlayableBelowStep(g: Grid, n: int, row: int, col: int, colour: char, dr: int, dc: int)
    requires IsSquare(g, n) && IsDirection(dr, dc)
    ensures PlayableBelow(g, n, row, col, colour, Rank(dr, dc + 1))
      <==> PlayableBelow(g, n, row, col, colour, Rank(dr, dc)) || LegalInDirection(g, n, row, col, colour, dr, dc)
  {
    RankOrder();
  }

  /** Step 0 of the loops is (0, 0), which is skipped: it adds nothing. */
  lemma PlayableBelowCentre(g: Grid, n: int, row: int, col: int, colour: char)
    requires IsSquare(g, n)
    ensures PlayableBelow(g, n, row, col, colour, 1) <==> PlayableBelow(g, n, row, col, colour, 0)
  {
    RankOrder();
  }

  /** Nothing is found before the first step, and everything once all steps are done. */
  lemma PlayableBelowEnds(g: Grid, n: int, row: int, col: int, colour: char)
    requires IsSquare(g, n)
    ensures !PlayableBelow(g, n, row, col, colour, Rank(-1, -1))
    ensures PlayableBelow(g, n, row, col, colour, Rank(2, -1)) <==> Playable(g, n, row, col, colour)
  {
    RankOrder();
  }

  /** 'U' is nobody's colour: no move for it ever captures. */
  lemma EmptyNeverCaptures(g: Grid, n: int, row: int, col: int)
    requires IsSquare(g, n)
    ensures !Playable(g, n, row, col, Empty)
  {
    forall dr, dc | IsDirection(dr, dc)
      ensures !LegalInDirection(g, n, row, col, Empty, dr, dc)
    {
      var t := Tiles(g, n, Ray(n, row, col, dr, dc));
      forall k | 0 <= k < |t|
        ensures !SandwichAt(t, Empty, k)
      {
        assert !Own(t[k], Empty);
      }
    }
  }

  /**
   * The direction loops of get_available_moves: try the directions in loop
   * order and stop at the first one that captures.
   */
  method IsPlayable(board: array2<char>, n: int, row: int, col: int, colour: char) returns (legal: bool)
    requires ValidBoard(board, n)
    ensures legal <==> Playable(Cells(board), n, row, col, colour)
  {
    ghost var g := Cells(board);
    PlayableBelowEnds(g, n, row, col, colour);
    legal := false;
    for deltaRow := -1 to 2
      invariant !legal
      invariant !PlayableBelow(g, n, row, col, colour, Rank(deltaRow, -1))
    {
      for deltaCol := -1 to 2
        invariant !legal
        invariant !PlayableBelow(g, n, row, col, colour, Rank(deltaRow, deltaCol))
      {
        if deltaRow == 0 && deltaCol == 0 {
          PlayableBelowCentre(g, n, row, col, colour);
          continue;
        }
        legal := CheckLegalInDirection(board, n, row, col, colour, deltaRow, deltaCol);
        if legal {
          break;
        }
        PlayableBelowStep(g, n, row, col, colour, deltaRow, deltaCol);
      }
      if legal {
        break;
      }
    }
  }

  // ---------------------------------------------------------------------------
  // The listing of available moves

  /** An empty on-board cell where `colour` captures. */
  ghost predicate Available(g: Grid, n: int, colour: char, row: int, col: int)
    requires IsSquare(g, n)
  {
    PositionInBounds(n, row, col) && g[row][col] == Empty && Playable(g, n, row, col, colour)
  }

  /** Every available cell, as a set. */
  ghost function AvailableSet(g: Grid, n: int, colour: char): (s: set<Pos>)
    requires IsSquare(g, n)
    ensures forall p :: p in s <==> Available(g, n, colour, p.0, p.1)
  {
    set i, j | 0 <= i < n && 0 <= j < n && Available(g, n, colour, i, j) :: (i, j)
  }

  /** The cells (i, 0), ..., (i, j - 1) that belong to `avail`, left to right. */
  function RowMoves(avail: set<Pos>, i: int, j: nat): seq<Pos>
  {
    if j == 0 then []
    else if (i, j - 1) in avail then RowMoves(avail, i, j - 1) + [(i, j - 1)]
    else RowMoves(avail, i, j - 1)
  }

  /** The cells of rows 0, ..., i - 1 of an n-column board that belong to `avail`, in row-major order. */
  function MovesBefore(avail: set<Pos>, n: nat, i: nat): seq<Pos>
  {
    if i == 0 then [] else MovesBefore(avail, n, i - 1) + RowMoves(avail, i - 1, n)
  }

  /** Every available move on the board, in row-major order. */
  ghost function AvailableMoves(g: Grid, n: nat, colour: char): seq<Pos>
    requires IsSquare(g, n)
  {
    MovesBefore(AvailableSet(g, n, colour), n, n)
  }

  /** p comes strictly before q in row-major order. */
  predicate RowMajorBefore(p: Pos, q: Pos)
  {
    p.0 < q.0 || (p.0 == q.0 && p.1 < q.1)
  }

  predicate RowMajorSorted(ps: seq<Pos>)
  {
    forall a, b :: 0 <= a < b < |ps| ==> RowMajorBefore(ps[a], ps[b])
  }

  /** A row listing holds exactly the cells of `avail` in row i left of column j. */
  lemma {:induction false} RowMovesMembers(avail: set<Pos>, i: int, j: nat)
    ensures forall p :: p in RowMoves(avail, i, j) <==> p.0 == i && 0 <= p.1 < j && p in avail
  {
    if j > 0 {
      RowMovesMembers(avail, i, j - 1);
    }
  }

  /** A row listing runs along row i, left of column j, from left to right. */
  lemma {:induction false} RowMovesOrdered(avail: set<Pos>, i: int, j: nat)
    ensures forall a :: 0 <= a < |RowMoves(avail, i, j)| ==>
              RowMoves(avail, i, j)[a].0 == i && RowMoves(avail, i, j)[a].1 < j
    ensures forall a, b :: 0 <= a < b < |RowMoves(avail, i, j)| ==>
              RowMoves(avail, i, j)[a].1 < RowMoves(avail, i, j)[b].1
  {
    if j > 0 {
      RowMovesOrdered(avail, i, j - 1);
      var prev := RowMoves(avail, i, j - 1);
      var all := RowMoves(avail, i, j);
      forall a | 0 <= a < |all|
        ensures all[a].0 == i && all[a].1 < j
      {
        if a < |prev| {
          assert all[a] == prev[a];
        }
      }
      forall a, b | 0 <= a < b < |all|
        ensures all[a].1 < all[b].1
      {
        assert all[a] == prev[a];
        if b < |prev| {
          assert all[b] == prev[b];
        }
      }
    }
  }

  /** The listing of rows below i holds exactly their cells in `avail`. */
  lemma {:induction false} MovesBeforeMembers(avail: set<Pos>, n: nat, i: nat)
    ensures forall p :: p in MovesBefore(avail, n, i) <==> 0 <= p.0 < i && 0 <= p.1 < n && p in avail
  {
    if i > 0 {
      MovesBeforeMembers(avail, n, i - 1);
      RowMovesMembers(avail, i - 1, n);
    }
  }

  /** The listing of rows below i is in strict row-major order and stays below row i. */
  lemma {:induction false} MovesBeforeSorted(avail: set<Pos>, n: nat, i: nat)
    ensures RowMajorSorted(MovesBefore(avail, n, i))
    ensures forall a :: 0 <= a < |MovesBefore(avail, n, i)| ==> MovesBefore(avail, n, i)[a].0 < i
  {
    if i > 0 {
      MovesBeforeSorted(avail, n, i - 1);
      RowMovesOrdered(avail, i - 1, n);
      SortedAppendRow(MovesBefore(avail, n, i - 1), RowMoves(avail, i - 1, n), i - 1);
    }
  }

  /** Appending a left-to-right listing of row i to a sorted listing of the rows above it keeps it sorted. */
  lemma SortedAppendRow(prev: seq<Pos>, row: seq<Pos>, i: int)
    requires RowMajorSorted(prev) && forall a :: 0 <= a < |prev| ==> prev[a].0 < i
    requires forall a :: 0 <= a < |row| ==> row[a].0 == i
    requires forall a, b :: 0 <= a < b < |row| ==> row[a].1 < row[b].1
    ensures RowMajorSorted(prev + row)
    ensures forall a :: 0 <= a < |prev + row| ==> (prev + row)[a].0 < i + 1
  {
    var all := prev + row;
    forall a, b | 0 <= a < b < |all|
      ensures RowMajorBefore(all[a], all[b])
    {
      if b < |prev| {
        assert all[a] == prev[a] && all[b] == prev[b];
      } else if a < |prev| {
        assert all[a] == prev[a] && all[b] == row[b - |prev|];
      } else {
        assert all[a] == row[a - |prev|] && all[b] == row[b - |prev|];
      }
    }
    forall a | 0 <= a < |all|
      ensures all[a].0 < i + 1
    {
      if a >= |prev| {
        assert all[a] == row[a - |prev|];
      }
    }
  }

  /**
   * The available-moves listing holds exactly the empty cells where `colour`
   * captures, each once, in strict row-major order.
   */
  lemma AvailableMovesExact(g: Grid, n: nat, colour: char)
    requires IsSquare(g, n)
    ensures forall p :: p in AvailableMoves(g, n, colour) <==> Available(g, n, colour, p.0, p.1)
    ensures RowMajorSorted(AvailableMoves(g, n, colour))
    ensures forall a, b :: 0 <= a < b < |AvailableMoves(g, n, colour)| ==>
              AvailableMoves(g, n, colour)[a] != AvailableMoves(g, n, colour)[b]
  {
    MovesBeforeMembers(AvailableSet(g, n, colour), n, n);
    MovesBeforeSorted(AvailableSet(g, n, colour), n, n);
  }

  /**
   * get_available_moves: scan the board row by row and list every empty cell
   * where `colour` captures; the board is only read.
   */
  method GetAvailableMoves(board: array2<char>, n: nat, colour: char) returns (moves: seq<Pos>)
    requires ValidBoard(board, n)
    ensures moves == AvailableMoves(Cells(board), n, colour)
  {
    ghost var avail := AvailableSet(Cells(board), n, colour);
    moves := [];
    for i := 0 to n
      invariant moves == MovesBefore(avail, n, i)
    {
      var row := RowAvailableMoves(board, n, colour, i);
      moves := moves + row;
    }
  }

  /** One pass of the outer loop of get_available_moves: the available cells of row i, left to right. */
  method RowAvailableMoves(board: array2<char>, n: nat, colour: char, i: nat) returns (row: seq<Pos>)
    requires ValidBoard(board, n) && i < n
    ensures row == RowMoves(AvailableSet(Cells(board), n, colour), i, n)
  {
    ghost var avail := AvailableSet(Cells(board), n, colour);
    row := [];
    for j := 0 to n
      invariant row == RowMoves(avail, i, j)
    {
      if board[i, j] != Empty {
        continue;
      }
      var legal := IsPlayable(board, n, i, j, colour);
      if legal {
        row := row + [(i, j)];
      }
    }
  }


  // ---------------------------------------------------------------------------
  // Decoding a move

  /** A move: the player's colour and the target cell. */
  datatype Move = Move(player: char, row: int, col: int)

  /** The letter naming coordinate `i`: 'a' + i. */
  function Letter(i: int): char
    requires 0 <= i < MaxSize
  {
    ('a' as int + i) as char
  }

  /** The three characters of a move: colour, row letter, column letter. */
  function EncodeMove(m: Move): (s: seq<char>)
    requires 0 <= m.row < MaxSize && 0 <= m.col < MaxSize
    ensures |s| == 3
  {
    [m.player, Letter(m.row), Letter(m.col)]
  }

  /** Reading a move: the colour, then each letter's distance from 'a'. */
  function DecodeMove(s: seq<char>): (m: Move)
    requires |s| >= 3
  {
    Move(s[0], s[1] as int - 'a' as int, s[2] as int - 'a' as int)
  }

  /** Decoding inverts encoding. */
  lemma DecodeEncode(m: Move)
    requires 0 <= m.row < MaxSize && 0 <= m.col < MaxSize
    ensures DecodeMove(EncodeMove(m)) == m
  {
  }

  /** A move whose letters lie in 'a'..'z' is the encoding of what it decodes to. */
  lemma EncodeDecode(s: seq<char>)
    requires |s| == 3 && 'a' <= s[1] <= 'z' && 'a' <= s[2] <= 'z'
    ensures 0 <= DecodeMove(s).row < MaxSize && 0 <= DecodeMove(s).col < MaxSize
    ensures EncodeMove(DecodeMove(s)) == s
  {
  }

  // ---------------------------------------------------------------------------
  // Playing a move

  /** p lies in the run of a capturing direction visited before step `bound`. */
  ghost predicate CapturedBefore(g: Grid, n: int, row: int, col: int, colour: char, bound: int, p: Pos)
    requires IsSquare(g, n)
  {
    exists dr, dc {:trigger LegalInDirection(g, n, row, col, colour, dr, dc)} ::
      && IsDirection(dr, dc) && Rank(dr, dc) < bound
      && LegalInDirection(g, n, row, col, colour, dr, dc)
      && p in Run(g, n, row, col, colour, dr, dc)
  }

  /** p lies in the run of some capturing direction. */
  ghost predicate CapturedAlongSome(g: Grid, n: int, row: int, col: int, colour: char, p: Pos)
    requires IsSquare(g, n)
  {
    exists dr, dc {:trigger LegalInDirection(g, n, row, col, colour, dr, dc)} ::
      && IsDirection(dr, dc)
      && LegalInDirection(g, n, row, col, colour, dr, dc)
      && p in Run(g, n, row, col, colour, dr, dc)
  }

  /** The direction the loops visit at step k, for k in -4..4; step 0 is the skipped (0, 0). */
  function Unrank(k: int): (d: (int, int))
    requires -4 <= k <= 4
    ensures -1 <= d.0 <= 1 && -1 <= d.1 <= 1 && Rank(d.0, d.1) == k
  {
    if k < -1 then (-1, k + 3) else if k < 2 then (0, k) else (1, k - 3)
  }

  /** Unrank undoes Rank on the nine pairs the loops visit. */
  lemma UnrankRank(dr: int, dc: int)
    requires -1 <= dr <= 1 && -1 <= dc <= 1
    ensures -4 <= Rank(dr, dc) <= 4 && Unrank(Rank(dr, dc)) == (dr, dc)
  {
  }

  /** The cells captured in the directions visited before step `bound`: the union of their runs. */
  ghost function CapturedBelow(g: Grid, n: int, row: int, col: int, colour: char, bound: int): set<Pos>
    requires IsSquare(g, n) && -4 <= bound <= 5
    decreases bound + 4, g
  {
    if bound == -4 then {}
    else
      var d := Unrank(bound - 1);
      CapturedBelow(g, n, row, col, colour, bound - 1)
      + (if NonZero(d.0, d.1) && LegalInDirection(g, n, row, col, colour, d.0, d.1)
         then AsSet(Run(g, n, row, col, colour, d.0, d.1)) else {})
  }

  /** Every cell captured by playing `colour` at (row, col): the union of the runs of all capturing directions. */
  ghost function Captured(g: Grid, n: int, row: int, col: int, colour: char): set<Pos>
    requires IsSquare(g, n)
  {
    CapturedBelow(g, n, row, col, colour, Rank(2, -1))
  }

  /** Raising the bound by one step adds the direction of that step, when it is one of the eight. */
  lemma CapturedBeforeStep(g: Grid, n: int, row: int, col: int, colour: char, bound: int, p: Pos)
    requires IsSquare(g, n) && -3 <= bound <= 5
    ensures var d := Unrank(bound - 1);
      CapturedBefore(g, n, row, col, colour, bound, p)
      <==> CapturedBefore(g, n, row, col, colour, bound - 1, p)
           || (NonZero(d.0, d.1) && LegalInDirection(g, n, row, col, colour, d.0, d.1)
               && p in Run(g, n, row, col, colour, d.0, d.1))
  {
    var d := Unrank(bound - 1);
    if CapturedBefore(g, n, row, col, colour, bound, p) && !CapturedBefore(g, n, row, col, colour, bound - 1, p) {
      var dr, dc :| && IsDirection(dr, dc) && Rank(dr, dc) < bound
                    && LegalInDirection(g, n, row, col, colour, dr, dc)
                    && p in Run(g, n, row, col, colour, dr, dc);
      assert Rank(dr, dc) == bound - 1;
      UnrankRank(dr, dc);
    }
    if CapturedBefore(g, n, row, col, colour, bound - 1, p) {
      var dr, dc :| && IsDirection(dr, dc) && Rank(dr, dc) < bound - 1
                    && LegalInDirection(g, n, row, col, colour, dr, dc)
                    && p in Run(g, n, row, col, colour, dr, dc);
      assert Rank(dr, dc) < bound;
    }
  }

  /** The union over the steps before `bound` holds exactly the cells of their capturing runs. */
  lemma {:induction false} CapturedBelowMembers(g: Grid, n: int, row: int, col: int, colour: char, bound: int)
    requires IsSquare(g, n) && -4 <= bound <= 5
    ensures forall p :: p in CapturedBelow(g, n, row, col, colour, bound) <==> CapturedBefore(g, n, row, col, colour, bound, p)
    decreases bound + 4
  {
    if bound > -4 {
      CapturedBelowMembers(g, n, row, col, colour, bound - 1);
      forall p
        ensures p in CapturedBelow(g, n, row, col, colour, bound) <==> CapturedBefore(g, n, row, col, colour, bound, p)
      {
        CapturedBeforeStep(g, n, row, col, colour, bound, p);
      }
    } else {
      RankOrder();
    }
  }

  /** A cell is captured exactly when it lies in the run of some capturing direction. */
  lemma CapturedIff(g: Grid, n: int, row: int, col: int, colour: char)
    requires IsSquare(g, n)
    ensures forall p :: p in Captured(g, n, row, col, colour) <==> CapturedAlongSome(g, n, row, col, colour, p)
  {
    CapturedBelowMembers(g, n, row, col, colour, Rank(2, -1));
    RankOrder();
  }

  /** The board after the direction loops have flipped every direction before step `bound`. */
  ghost function FlippedBelow(g: Grid, n: int, row: int, col: int, colour: char, bound: int): Grid
    requires IsSquare(g, n) && -4 <= bound <= 5
  {
    Paint(g, CapturedBelow(g, n, row, col, colour, bound), colour)
  }

  /** The board after playing move m: the captured cells and the target take the player's colour. */
  ghost function AfterMove(g: Grid, n: int, m: Move): Grid
    requires IsSquare(g, n)
  {
    Paint(g, Captured(g, n, m.row, m.col, m.player) + {(m.row, m.col)}, m.player)
  }

  /** check_valid_move accepts a move on an empty on-board cell that captures in some direction. */
  ghost predicate MoveAccepted(g: Grid, n: int, s: seq<char>)
    requires IsSquare(g, n) && |s| >= 3
  {
    var m := DecodeMove(s);
    PositionInBounds(n, m.row, m.col) && g[m.row][m.col] == Empty && Playable(g, n, m.row, m.col, m.player)
  }

  /**
   * The flips of earlier directions leave the ray of a later direction as it
   * was: its tiles, hence its legality and its run, are those of the board
   * before the move.
   */
  lemma LaterRayUntouched(g: Grid, n: int, row: int, col: int, colour: char, dr: int, dc: int, bound: int)
    requires IsSquare(g, n) && IsDirection(dr, dc) && -4 <= bound <= Rank(dr, dc)
    ensures IsSquare(FlippedBelow(g, n, row, col, colour, bound), n)
    ensures Tiles(FlippedBelow(g, n, row, col, colour, bound), n, Ray(n, row, col, dr, dc))
         == Tiles(g, n, Ray(n, row, col, dr, dc))
    ensures LegalInDirection(FlippedBelow(g, n, row, col, colour, bound), n, row, col, colour, dr, dc)
        <==> LegalInDirection(g, n, row, col, colour, dr, dc)
    ensures Run(FlippedBelow(g, n, row, col, colour, bound), n, row, col, colour, dr, dc)
         == Run(g, n, row, col, colour, dr, dc)
  {
    RankOrder();
    var ray := Ray(n, row, col, dr, dc);
    var cells := CapturedBelow(g, n, row, col, colour, bound);
    CapturedBelowMembers(g, n, row, col, colour, bound);
    forall er, ec | IsDirection(er, ec) && Rank(er, ec) < bound
      ensures forall p :: p in Run(g, n, row, col, colour, er, ec) ==> p !in ray
    {
      RaysDisjoint(n, row, col, er, ec, dr, dc);
      RunOnRay(g, n, row, col, colour, er, ec);
    }
    TilesUnpainted(g, n, ray, cells, colour);
  }

  /** Visiting a direction adds its run to the captured cells when it captures, and nothing otherwise. */
  lemma CapturedBelowStep(g: Grid, n: int, row: int, col: int, colour: char, dr: int, dc: int)
    requires IsSquare(g, n) && IsDirection(dr, dc)
    ensures -4 <= Rank(dr, dc) <= 4
    ensures CapturedBelow(g, n, row, col, colour, Rank(dr, dc) + 1)
         == CapturedBelow(g, n, row, col, colour, Rank(dr, dc))
            + (if LegalInDirection(g, n, row, col, colour, dr, dc) then AsSet(Run(g, n, row, col, colour, dr, dc)) else {})
  {
    RankOrder();
    UnrankRank(dr, dc);
  }

  /** The skipped (0, 0) turn of the direction loops finds and flips nothing. */
  lemma SkipCentre(g: Grid, n: int, row: int, col: int, colour: char)
    requires IsSquare(g, n)
    ensures PlayableBelow(g, n, row, col, colour, 1) <==> PlayableBelow(g, n, row, col, colour, 0)
    ensures FlippedBelow(g, n, row, col, colour, 1) == FlippedBelow(g, n, row, col, colour, 0)
  {
    PlayableBelowCentre(g, n, row, col, colour);
    assert CapturedBelow(g, n, row, col, colour, 1) == CapturedBelow(g, n, row, col, colour, 0);
  }

  /**
   * One turn of the direction loops of check_valid_move: the scan on the
   * partly flipped board answers as on the original board, and flipping a
   * capturing direction extends the flipped board by that direction's run.
   */
  lemma FlipStepInLoop(g: Grid, n: int, row: int, col: int, colour: char, dr: int, dc: int)
    requires IsSquare(g, n) && IsDirection(dr, dc)
    ensures -4 <= Rank(dr, dc) <= 4
    ensures IsSquare(FlippedBelow(g, n, row, col, colour, Rank(dr, dc)), n)
    ensures LegalInDirection(FlippedBelow(g, n, row, col, colour, Rank(dr, dc)), n, row, col, colour, dr, dc)
        <==> LegalInDirection(g, n, row, col, colour, dr, dc)
    ensures LegalInDirection(g, n, row, col, colour, dr, dc) ==>
              FlipGrid(FlippedBelow(g, n, row, col, colour, Rank(dr, dc)), n, row, col, colour, dr, dc)
              == FlippedBelow(g, n, row, col, colour, Rank(dr, dc) + 1)
    ensures !LegalInDirection(g, n, row, col, colour, dr, dc) ==>
              FlippedBelow(g, n, row, col, colour, Rank(dr, dc)) == FlippedBelow(g, n, row, col, colour, Rank(dr, dc) + 1)
  {
    RankOrder();
    LaterRayUntouched(g, n, row, col, colour, dr, dc, Rank(dr, dc));
    if LegalInDirection(g, n, row, col, colour, dr, dc) {
      CapturingStep(g, n, row, col, colour, dr, dc);
    } else {
      PassingStep(g, n, row, col, colour, dr, dc);
    }
  }

  /** A direction that does not capture leaves the flipped board as it is. */
  lemma PassingStep(g: Grid, n: int, row: int, col: int, colour: char, dr: int, dc: int)
    requires IsSquare(g, n) && IsDirection(dr, dc) && !LegalInDirection(g, n, row, col, colour, dr, dc)
    ensures -4 <= Rank(dr, dc) <= 4
    ensures FlippedBelow(g, n, row, col, colour, Rank(dr, dc)) == FlippedBelow(g, n, row, col, colour, Rank(dr, dc) + 1)
  {
    CapturedBelowStep(g, n, row, col, colour, dr, dc);
    var b := Rank(dr, dc);
    var before := CapturedBelow(g, n, row, col, colour, b);
    assert CapturedBelow(g, n, row, col, colour, b + 1) == before + {};
    assert before + {} == before;
  }

  /** A capturing direction flips, on the partly flipped board, exactly its run on the original board. */
  lemma CapturingStep(g: Grid, n: int, row: int, col: int, colour: char, dr: int, dc: int)
    requires IsSquare(g, n) && IsDirection(dr, dc) && LegalInDirection(g, n, row, col, colour, dr, dc)
    ensures -4 <= Rank(dr, dc) <= 4
    ensures IsSquare(FlippedBelow(g, n, row, col, colour, Rank(dr, dc)), n)
    ensures FlipGrid(FlippedBelow(g, n, row, col, colour, Rank(dr, dc)), n, row, col, colour, dr, dc)
         == FlippedBelow(g, n, row, col, colour, Rank(dr, dc) + 1)
  {
    CapturedBelowStep(g, n, row, col, colour, dr, dc);
    var b := Rank(dr, dc);
    LaterRayUntouched(g, n, row, col, colour, dr, dc, b);
    PaintTwice(g, CapturedBelow(g, n, row, col, colour, b), AsSet(Run(g, n, row, col, colour, dr, dc)), colour);
  }


  /** One turn of the direction loops of check_valid_move: the direction is flipped if it captures. */
  ghost function Turn(h: Grid, n: int, row: int, col: int, colour: char, dr: int, dc: int): (r: Grid)
    requires IsSquare(h, n) && NonZero(dr, dc)
    ensures IsSquare(r, n)
  {
    if LegalInDirection(h, n, row, col, colour, dr, dc) then FlipGrid(h, n, row, col, colour, dr, dc) else h
  }

  /**
   * The board as the direction loops of check_valid_move leave it after the
   * steps before `bound`: each direction is scanned on the board the earlier
   * steps left behind and, when it captures there, flipped on it.
   */
  ghost function LoopGrid(g: Grid, n: int, row: int, col: int, colour: char, bound: int): (r: Grid)
    requires IsSquare(g, n) && -4 <= bound <= 5
    ensures IsSquare(r, n)
    decreases bound + 4, g
  {
    if bound == -4 then g
    else
      var prev := LoopGrid(g, n, row, col, colour, bound - 1);
      var d := Unrank(bound - 1);
      if NonZero(d.0, d.1) then Turn(prev, n, row, col, colour, d.0, d.1) else prev
  }

  /**
   * Flipping the directions one after another, each scanned on the board the
   * earlier flips left, paints exactly the runs that capture on the original
   * board: the flips do not interfere.
   */
  lemma {:induction false} LoopGridIsFlippedBelow(g: Grid, n: int, row: int, col: int, colour: char, bound: int)
    requires IsSquare(g, n) && -4 <= bound <= 5
    ensures LoopGrid(g, n, row, col, colour, bound) == FlippedBelow(g, n, row, col, colour, bound)
    decreases bound + 4
  {
    if bound == -4 {
      PaintNothing(g, colour);
    } else {
      LoopGridIsFlippedBelow(g, n, row, col, colour, bound - 1);
      LoopGridStepIsFlippedBelow(g, n, row, col, colour, bound);
    }
  }

  /** The inductive step of LoopGridIsFlippedBelow: one more turn of the loops. */
  lemma LoopGridStepIsFlippedBelow(g: Grid, n: int, row: int, col: int, colour: char, bound: int)
    requires IsSquare(g, n) && -4 < bound <= 5
    requires LoopGrid(g, n, row, col, colour, bound - 1) == FlippedBelow(g, n, row, col, colour, bound - 1)
    ensures LoopGrid(g, n, row, col, colour, bound) == FlippedBelow(g, n, row, col, colour, bound)
  {
    var d := Unrank(bound - 1);
    if NonZero(d.0, d.1) {
      FlipStepInLoop(g, n, row, col, colour, d.0, d.1);
    } else {
      SkipCentre(g, n, row, col, colour);
    }
  }

  /**
   * One turn of the direction loops on the partly flipped board: the scan
   * answers as it would on the original board, and a capturing direction is
   * flipped.
   */
  lemma LoopStep(g: Grid, n: int, row: int, col: int, colour: char, dr: int, dc: int)
    requires IsSquare(g, n) && IsDirection(dr, dc)
    ensures -4 <= Rank(dr, dc) <= 4
    ensures LegalInDirection(LoopGrid(g, n, row, col, colour, Rank(dr, dc)), n, row, col, colour, dr, dc)
        <==> LegalInDirection(g, n, row, col, colour, dr, dc)
    ensures LoopGrid(g, n, row, col, colour, Rank(dr, dc + 1))
         == Turn(LoopGrid(g, n, row, col, colour, Rank(dr, dc)), n, row, col, colour, dr, dc)
  {
    RankOrder();
    var b := Rank(dr, dc);
    assert Rank(dr, dc + 1) == b + 1;
    LoopGridIsFlippedBelow(g, n, row, col, colour, b);
    FlipStepInLoop(g, n, row, col, colour, dr, dc);
    UnrankRank(dr, dc);
  }

  /** The skipped (0, 0) turn of the direction loops finds and flips nothing. */
  lemma LoopSkipsCentre(g: Grid, n: int, row: int, col: int, colour: char)
    requires IsSquare(g, n)
    ensures PlayableBelow(g, n, row, col, colour, Rank(0, 1)) <==> PlayableBelow(g, n, row, col, colour, Rank(0, 0))
    ensures LoopGrid(g, n, row, col, colour, Rank(0, 1)) == LoopGrid(g, n, row, col, colour, Rank(0, 0))
  {
    PlayableBelowCentre(g, n, row, col, colour);
  }

  /** After the last step the loops have painted every captured cell. */
  lemma LoopGridDone(g: Grid, n: int, row: int, col: int, colour: char)
    requires IsSquare(g, n)
    ensures LoopGrid(g, n, row, col, colour, Rank(2, -1)) == Paint(g, Captured(g, n, row, col, colour), colour)
  {
    LoopGridIsFlippedBelow(g, n, row, col, colour, Rank(2, -1));
  }

  /** When no direction captures, the loops leave the board as it was. */
  lemma LoopGridWithoutCapture(g: Grid, n: int, row: int, col: int, colour: char)
    requires IsSquare(g, n) && !Playable(g, n, row, col, colour)
    ensures LoopGrid(g, n, row, col, colour, Rank(2, -1)) == g
  {
    LoopGridDone(g, n, row, col, colour);
    CapturedIff(g, n, row, col, colour);
    assert Captured(g, n, row, col, colour) == {};
    PaintNothing(g, colour);
  }

  /** Placing the tile on the board the loops leave is playing the move. */
  lemma PlaceTile(g: Grid, n: int, row: int, col: int, colour: char)
    requires IsSquare(g, n) && PositionInBounds(n, row, col)
    ensures SetCell(LoopGrid(g, n, row, col, colour, Rank(2, -1)), row, col, colour) == AfterMove(g, n, Move(colour, row, col))
  {
    var flipped := LoopGrid(g, n, row, col, colour, Rank(2, -1));
    LoopGridDone(g, n, row, col, colour);
    SetCellIsPaint(flipped, row, col, colour);
    PaintTwice(g, Captured(g, n, row, col, colour), {(row, col)}, colour);
  }

  /** One turn of the direction loops of check_valid_move: flip the direction if it captures. */
  method FlipIfLegal(board: array2<char>, n: int, row: int, col: int, player: char, deltaRow: int, deltaCol: int)
    returns (legal: bool)
    requires ValidBoard(board, n) && NonZero(deltaRow, deltaCol)
    modifies board
    ensures legal <==> LegalInDirection(old(Cells(board)), n, row, col, player, deltaRow, deltaCol)
    ensures Cells(board) == Turn(old(Cells(board)), n, row, col, player, deltaRow, deltaCol)
  {
    legal := CheckLegalInDirection(board, n, row, col, player, deltaRow, deltaCol);
    if legal {
      Flip(board, n, row, col, player, deltaRow, deltaCol);
    }
  }

  /**
   * The direction loops of check_valid_move: scan every direction in turn on
   * the board as the earlier flips left it, and flip those that capture.
   */
  method FlipAllDirections(board: array2<char>, n: int, row: int, col: int, player: char) returns (legalMove: bool)
    requires ValidBoard(board, n)
    modifies board
    ensures legalMove <==> Playable(old(Cells(board)), n, row, col, player)
    ensures Cells(board) == LoopGrid(old(Cells(board)), n, row, col, player, Rank(2, -1))
  {
    ghost var g := Cells(board);
    PlayableBelowEnds(g, n, row, col, player);
    legalMove := false;
    for deltaRow := -1 to 2
      invariant legalMove <==> PlayableBelow(g, n, row, col, player, Rank(deltaRow, -1))
      invariant Cells(board) == LoopGrid(g, n, row, col, player, Rank(deltaRow, -1))
    {
      for deltaCol := -1 to 2
        invariant legalMove <==> PlayableBelow(g, n, row, col, player, Rank(deltaRow, deltaCol))
        invariant Cells(board) == LoopGrid(g, n, row, col, player, Rank(deltaRow, deltaCol))
      {
        if deltaRow == 0 && deltaCol == 0 {
          LoopSkipsCentre(g, n, row, col, player);
          continue;
        }
        LoopStep(g, n, row, col, player, deltaRow, deltaCol);
        PlayableBelowStep(g, n, row, col, player, deltaRow, deltaCol);
        var legal := FlipIfLegal(board, n, row, col, player, deltaRow, deltaCol);
        legalMove := legalMove || legal;
      }
      assert Rank(deltaRow, 2) == Rank(deltaRow + 1, -1);
    }
  }

  /**
   * check_valid_move: reject an off-board or occupied target; otherwise flip
   * every capturing direction and, if there was one, place the player's tile.
   * The target is read only once it is known to be on the board.
   */
  method CheckValidMove(board: array2<char>, n: int, move: seq<char>) returns (valid: bool)
    requires ValidBoard(board, n) && |move| >= 3
    modifies board
    ensures valid <==> MoveAccepted(old(Cells(board)), n, move)
    ensures Cells(board) == if valid then AfterMove(old(Cells(board)), n, DecodeMove(move)) else old(Cells(board))
  {
    var player := move[0];
    var row := move[1] as int - 'a' as int;
    var col := move[2] as int - 'a' as int;

    var onBoard := PositionInBounds(n, row, col);
    if !onBoard {
      return false;
    }
    var takenTile := board[row, col] != Empty;
    if takenTile {
      return false;
    }

    ghost var g := Cells(board);
    var legalMove := FlipAllDirections(board, n, row, col, player);
    if legalMove {
      SetTile(board, row, col, player);
      PlaceTile(g, n, row, col, player);
    } else {
      LoopGridWithoutCapture(g, n, row, col, player);
    }
    return legalMove;
  }

  /**
   * The occupancy test at reversi.c:171 comes before the bounds test and reads
   * the named cell whatever the letters are. That read stays inside the
   * 26 x 26 array only when both letters lie in 'a'..'z'.
   */
  predicate UncheckedReadInArray(move: seq<char>)
    requires |move| >= 3
  {
    var m := DecodeMove(move);
    0 <= m.row < MaxSize && 0 <= m.col < MaxSize
  }

  /**
   * The move "W`a" names row -1: the early read falls outside the array, and
   * the bounds test rejects the move on every board.
   */
  lemma UncheckedReadEscapes(n: int)
    ensures DecodeMove(['W', '`', 'a']) == Move('W', -1, 0)
    ensures !UncheckedReadInArray(['W', '`', 'a'])
    ensures !PositionInBounds(n, DecodeMove(['W', '`', 'a']).row, DecodeMove(['W', '`', 'a']).col)
  {
  }

  // ---------------------------------------------------------------------------
  // What an accepted move does

  /** A captured cell is on the board and held an opponent tile on the ray of a capturing direction. */
  lemma CapturedCell(g: Grid, n: int, row: int, col: int, colour: char, p: Pos)
    requires IsSquare(g, n) && p in Captured(g, n, row, col, colour)
    ensures PositionInBounds(n, p.0, p.1)
    ensures Opponent(g[p.0][p.1], colour)
    ensures exists dr, dc {:trigger LegalInDirection(g, n, row, col, colour, dr, dc)} ::
              IsDirection(dr, dc) && LegalInDirection(g, n, row, col, colour, dr, dc) && p in Ray(n, row, col, dr, dc)
  {
    CapturedIff(g, n, row, col, colour);
    var dr, dc :| IsDirection(dr, dc) && LegalInDirection(g, n, row, col, colour, dr, dc)
      && p in Run(g, n, row, col, colour, dr, dc);
    RunIsCaptured(g, n, row, col, colour, dr, dc, p);
  }

  /** Every cell of the run of a capturing direction is captured. */
  lemma RunCellCaptured(g: Grid, n: int, row: int, col: int, colour: char, dr: int, dc: int, p: Pos)
    requires IsSquare(g, n) && IsDirection(dr, dc)
    requires LegalInDirection(g, n, row, col, colour, dr, dc) && p in Run(g, n, row, col, colour, dr, dc)
    ensures p in Captured(g, n, row, col, colour)
  {
    assert CapturedAlongSome(g, n, row, col, colour, p);
    CapturedIff(g, n, row, col, colour);
  }

  /**
   * After an accepted move the target and every captured cell hold the
   * player's tile, and every other cell is unchanged.
   */
  lemma AfterMoveEffect(g: Grid, n: int, m: Move)
    requires IsSquare(g, n) && PositionInBounds(n, m.row, m.col)
    ensures IsSquare(AfterMove(g, n, m), n)
    ensures AfterMove(g, n, m)[m.row][m.col] == m.player
    ensures forall i, j :: 0 <= i < n && 0 <= j < n && (i, j) in Captured(g, n, m.row, m.col, m.player) ==>
              AfterMove(g, n, m)[i][j] == m.player
    ensures forall i, j ::
              (0 <= i < n && 0 <= j < n && (i, j) != (m.row, m.col) && (i, j) !in Captured(g, n, m.row, m.col, m.player))
              ==> AfterMove(g, n, m)[i][j] == g[i][j]
  {
  }

  /**
   * Every cell an accepted move changes, other than the target, was an
   * opponent tile on the ray of a direction that captured on the board before
   * the move; changed cells take the player's colour.
   */
  lemma ChangedCellsWereCaptured(g: Grid, n: int, m: Move)
    requires IsSquare(g, n) && PositionInBounds(n, m.row, m.col)
    ensures IsSquare(AfterMove(g, n, m), n)
    ensures forall i, j ::
              (0 <= i < n && 0 <= j < n && (i, j) != (m.row, m.col) && AfterMove(g, n, m)[i][j] != g[i][j]) ==>
              && Opponent(g[i][j], m.player)
              && AfterMove(g, n, m)[i][j] == m.player
              && exists dr, dc {:trigger LegalInDirection(g, n, m.row, m.col, m.player, dr, dc)} ::
                   IsDirection(dr, dc) && LegalInDirection(g, n, m.row, m.col, m.player, dr, dc)
                   && (i, j) in Ray(n, m.row, m.col, dr, dc)
  {
    AfterMoveEffect(g, n, m);
    forall i, j | 0 <= i < n && 0 <= j < n && (i, j) != (m.row, m.col) && AfterMove(g, n, m)[i][j] != g[i][j]
      ensures Opponent(g[i][j], m.player)
      ensures exists dr, dc {:trigger LegalInDirection(g, n, m.row, m.col, m.player, dr, dc)} ::
                IsDirection(dr, dc) && LegalInDirection(g, n, m.row, m.col, m.player, dr, dc)
                && (i, j) in Ray(n, m.row, m.col, dr, dc)
    {
      CapturedCell(g, n, m.row, m.col, m.player, (i, j));
    }
  }

  /** Every opponent tile in the run of a capturing direction is turned over. */
  lemma CapturingRunsTurned(g: Grid, n: int, m: Move)
    requires IsSquare(g, n) && PositionInBounds(n, m.row, m.col)
    ensures IsSquare(AfterMove(g, n, m), n)
    ensures forall dr, dc, x ::
              (IsDirection(dr, dc) && LegalInDirection(g, n, m.row, m.col, m.player, dr, dc)
               && 0 <= x < |Run(g, n, m.row, m.col, m.player, dr, dc)|) ==>
              var p := Run(g, n, m.row, m.col, m.player, dr, dc)[x];
              AfterMove(g, n, m)[p.0][p.1] == m.player
  {
    AfterMoveEffect(g, n, m);
    forall dr, dc, x | IsDirection(dr, dc) && LegalInDirection(g, n, m.row, m.col, m.player, dr, dc)
      && 0 <= x < |Run(g, n, m.row, m.col, m.player, dr, dc)|
      ensures var p := Run(g, n, m.row, m.col, m.player, dr, dc)[x];
              AfterMove(g, n, m)[p.0][p.1] == m.player
    {
      var p := Run(g, n, m.row, m.col, m.player, dr, dc)[x];
      RunCellCaptured(g, n, m.row, m.col, m.player, dr, dc, p);
    }
  }

  /**
   * The listing and the move check agree: a move for `colour` is listed by
   * get_available_moves exactly when check_valid_move accepts its encoding.
   */
  lemma ListedIffAccepted(g: Grid, n: nat, colour: char, row: int, col: int)
    requires IsSquare(g, n) && n <= MaxSize && PositionInBounds(n, row, col)
    ensures (row, col) in AvailableMoves(g, n, colour)
        <==> MoveAccepted(g, n, EncodeMove(Move(colour, row, col)))
  {
    AvailableMovesExact(g, n, colour);
    DecodeEncode(Move(colour, row, col));
  }
}
