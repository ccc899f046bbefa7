/**
 * Directional scanner: the ray of cells from an origin in one direction, the
 * "sandwich" rule that decides whether a move captures along that ray, and the
 * flip that overwrites the captured run.
 */
module Rays {
  import opened Board

  /** The walk moves: without this the scanning loops never leave the board. */
  predicate NonZero(dr: int, dc: int)
  {
    dr != 0 || dc != 0
  }

  /** One of the eight compass directions. */
  predicate IsDirection(dr: int, dc: int)
  {
    -1 <= dr <= 1 && -1 <= dc <= 1 && NonZero(dr, dc)
  }

  function Sgn(x: int): int
  {
    if x > 0 then 1 else if x < 0 then -1 else 0
  }

  /** A bound on the number of steps from (r, c) in direction (dr, dc) before the walk leaves the board. */
  function StepsToEdge(n: int, r: int, c: int, dr: int, dc: int): nat
  {
    if dr > 0 then (if n - r > 0 then n - r else 0)
    else if dr < 0 then (if r + 1 > 0 then r + 1 else 0)
    else if dc > 0 then (if n - c > 0 then n - c else 0)
    else if dc < 0 then (if c + 1 > 0 then c + 1 else 0)
    else 0
  }

  predicate AllInBounds(n: int, ps: seq<Pos>)
  {
    forall i :: 0 <= i < |ps| ==> PositionInBounds(n, ps[i].0, ps[i].1)
  }

  /** The cells visited when walking from (r, c) in direction (dr, dc) until the walk leaves the board. */
  function RayFrom(n: int, r: int, c: int, dr: int, dc: int): (ps: seq<Pos>)
    requires NonZero(dr, dc)
    ensures AllInBounds(n, ps)
    ensures |ps| > 0 ==> ps[0] == (r, c)
    decreases StepsToEdge(n, r, c, dr, dc)
  {
    if !PositionInBounds(n, r, c) then [] else [(r, c)] + RayFrom(n, r + dr, c + dc, dr, dc)
  }

  /** The ray from the origin (row, col), which itself is not part of it. */
  function Ray(n: int, row: int, col: int, dr: int, dc: int): (ps: seq<Pos>)
    requires NonZero(dr, dc)
    ensures AllInBounds(n, ps)
  {
    RayFrom(n, row + dr, col + dc, dr, dc)
  }

  /** The tiles found at a sequence of on-board positions. */
  function Tiles(g: Grid, n: int, ps: seq<Pos>): (s: seq<char>)
    requires IsSquare(g, n) && AllInBounds(n, ps)
    ensures |s| == |ps|
    ensures forall i {:trigger s[i]} :: 0 <= i < |ps| ==> s[i] == g[ps[i].0][ps[i].1]
  {
    if ps == [] then [] else [g[ps[0].0][ps[0].1]] + Tiles(g, n, ps[1..])
  }

  function AsSet(ps: seq<Pos>): (s: set<Pos>)
    ensures forall p :: p in s <==> p in ps
  {
    set p | p in ps
  }

  /** A tile of the other player ('U' is nobody's). */
  predicate Opponent(t: char, colour: char)
  {
    t != Empty && t != colour
  }

  /** A tile of the mover ('U' never counts as a mover's tile). */
  predicate Own(t: char, colour: char)
  {
    t == colour && t != Empty
  }

  /** The first k tiles are the opponent's and the next one is the mover's. */
  ghost predicate ClosedAt(s: seq<char>, colour: char, k: int)
  {
    0 <= k < |s| && Own(s[k], colour) && forall i :: 0 <= i < k ==> Opponent(s[i], colour)
  }

  /** A closed run of at least one opponent tile. */
  ghost predicate SandwichAt(s: seq<char>, colour: char, k: int)
  {
    1 <= k && ClosedAt(s, colour, k)
  }

  /** The sandwich rule: one or more opponent tiles, closed off by one of the mover's. */
  ghost predicate Sandwiched(s: seq<char>, colour: char)
  {
    exists k :: SandwichAt(s, colour, k)
  }

  /** Playing `colour` at (row, col) captures along direction (dr, dc). */
  ghost predicate LegalInDirection(g: Grid, n: int, row: int, col: int, colour: char, dr: int, dc: int)
    requires IsSquare(g, n) && NonZero(dr, dc)
  {
    Sandwiched(Tiles(g, n, Ray(n, row, col, dr, dc)), colour)
  }

  /** The number of leading tiles that differ from `colour`. */
  function PrefixLen(s: seq<char>, colour: char): (m: nat)
    ensures m <= |s|
    ensures forall i :: 0 <= i < m ==> s[i] != colour
    ensures m < |s| ==> s[m] == colour
  {
    if s == [] || s[0] == colour then 0 else 1 + PrefixLen(s[1..], colour)
  }

  /** The cells the flip overwrites: the ray up to its first cell holding `colour`. */
  function Run(g: Grid, n: int, row: int, col: int, colour: char, dr: int, dc: int): (ps: seq<Pos>)
    requires IsSquare(g, n) && NonZero(dr, dc)
    ensures AllInBounds(n, ps)
  {
    var ray := Ray(n, row, col, dr, dc);
    ray[..PrefixLen(Tiles(g, n, ray), colour)]
  }

  /** The board after flipping direction (dr, dc) from (row, col). */
  function FlipGrid(g: Grid, n: int, row: int, col: int, colour: char, dr: int, dc: int): (r: Grid)
    requires IsSquare(g, n) && NonZero(dr, dc)
    ensures IsSquare(r, n)
  {
    Paint(g, AsSet(Run(g, n, row, col, colour, dr, dc)), colour)
  }

  // ---------------------------------------------------------------------------
  // Facts about the sandwich rule on a sequence of tiles

  /** A sandwich has one length: the number of tiles before the first own tile. */
  lemma SandwichLength(s: seq<char>, colour: char, k: int)
    requires SandwichAt(s, colour, k)
    ensures PrefixLen(s, colour) == k
  {
    PrefixLenIs(s, colour, k);
  }

  /** The prefix length is determined by the first tile equal to `colour`. */
  lemma {:induction false} PrefixLenIs(s: seq<char>, colour: char, m: nat)
    requires m <= |s|
    requires forall i :: 0 <= i < m ==> s[i] != colour
    requires m == |s| || s[m] == colour
    ensures PrefixLen(s, colour) == m
  {
    if m > 0 {
      assert s[0] != colour;
      PrefixLenIs(s[1..], colour, m - 1);
    }
  }

  // ---------------------------------------------------------------------------
  // Geometry of rays

  /** Each step of a walk on the board takes it one step nearer to the edge. */
  lemma StepTowardsEdge(n: int, r: int, c: int, dr: int, dc: int)
    requires NonZero(dr, dc) && PositionInBounds(n, r, c)
    ensures StepsToEdge(n, r + dr, c + dc, dr, dc) < StepsToEdge(n, r, c, dr, dc)
  {
  }

  /** No position of `ps` is further than `bound` steps from the edge. */
  predicate WithinSteps(n: int, ps: seq<Pos>, bound: int, dr: int, dc: int)
  {
    forall i :: 0 <= i < |ps| ==> StepsToEdge(n, ps[i].0, ps[i].1, dr, dc) <= bound
  }

  /** Each position of `ps` is strictly nearer to the edge than the ones before it. */
  predicate Approaching(n: int, ps: seq<Pos>, dr: int, dc: int)
  {
    forall i, j :: 0 <= i < j < |ps| ==>
      StepsToEdge(n, ps[j].0, ps[j].1, dr, dc) < StepsToEdge(n, ps[i].0, ps[i].1, dr, dc)
  }

  /** Walking strictly approaches the edge: positions later on a ray are nearer to it. */
  lemma {:induction false} RayFromApproachesEdge(n: int, r: int, c: int, dr: int, dc: int)
    requires NonZero(dr, dc)
    ensures WithinSteps(n, RayFrom(n, r, c, dr, dc), StepsToEdge(n, r, c, dr, dc), dr, dc)
    ensures Approaching(n, RayFrom(n, r, c, dr, dc), dr, dc)
    decreases StepsToEdge(n, r, c, dr, dc)
  {
    if PositionInBounds(n, r, c) {
      var rest := RayFrom(n, r + dr, c + dc, dr, dc);
      RayFromApproachesEdge(n, r + dr, c + dc, dr, dc);
      assert StepsToEdge(n, r + dr, c + dc, dr, dc) < StepsToEdge(n, r, c, dr, dc);
      var ps := RayFrom(n, r, c, dr, dc);
      assert ps == [(r, c)] + rest;
      forall i, j | 0 <= i < j < |ps|
        ensures StepsToEdge(n, ps[j].0, ps[j].1, dr, dc) < StepsToEdge(n, ps[i].0, ps[i].1, dr, dc)
      {
        assert ps[j] == rest[j - 1];
        if i > 0 {
          assert ps[i] == rest[i - 1];
        }
      }
    }
  }

  /** A ray never visits a cell twice and never visits its origin. */
  lemma RayIsSimple(n: int, row: int, col: int, dr: int, dc: int)
    requires NonZero(dr, dc)
    ensures var ps := Ray(n, row, col, dr, dc);
      (forall i, j :: 0 <= i < j < |ps| ==> ps[i] != ps[j]) && (row, col) !in ps
  {
    var ps := Ray(n, row, col, dr, dc);
    RayFromApproachesEdge(n, row + dr, col + dc, dr, dc);
    forall i | 0 <= i < |ps|
      ensures ps[i] != (row, col)
    {
      assert PositionInBounds(n, ps[i].0, ps[i].1);
      if PositionInBounds(n, row, col) {
        assert StepsToEdge(n, row + dr, col + dc, dr, dc) < StepsToEdge(n, row, col, dr, dc);
      }
    }
    forall i, j | 0 <= i < j < |ps|
      ensures ps[i] != ps[j]
    {
    }
  }

  /** Every cell on a ray in a compass direction lies in that direction from the origin. */
  lemma {:induction false} RayFromSign(n: int, row: int, col: int, r: int, c: int, dr: int, dc: int)
    requires IsDirection(dr, dc)
    requires Sgn(r - row) == dr && Sgn(c - col) == dc
    ensures forall p :: p in RayFrom(n, r, c, dr, dc) ==> Sgn(p.0 - row) == dr && Sgn(p.1 - col) == dc
    decreases StepsToEdge(n, r, c, dr, dc)
  {
    if PositionInBounds(n, r, c) {
      RayFromSign(n, row, col, r + dr, c + dc, dr, dc);
    }
  }

  lemma RaySign(n: int, row: int, col: int, dr: int, dc: int)
    requires IsDirection(dr, dc)
    ensures forall p :: p in Ray(n, row, col, dr, dc) ==> Sgn(p.0 - row) == dr && Sgn(p.1 - col) == dc
  {
    RayFromSign(n, row, col, row + dr, col + dc, dr, dc);
  }

  /** The rays from one origin in two different compass directions share no cell. */
  lemma RaysDisjoint(n: int, row: int, col: int, dr: int, dc: int, er: int, ec: int)
    requires IsDirection(dr, dc) && IsDirection(er, ec) && (dr, dc) != (er, ec)
    ensures forall p :: p in Ray(n, row, col, dr, dc) ==> p !in Ray(n, row, col, er, ec)
  {
    RaySign(n, row, col, dr, dc);
    RaySign(n, row, col, er, ec);
  }

  /** Painting cells off a sequence of positions leaves the tiles along it unchanged. */
  lemma TilesUnpainted(g: Grid, n: int, ps: seq<Pos>, cells: set<Pos>, colour: char)
    requires IsSquare(g, n) && AllInBounds(n, ps)
    requires forall p :: p in ps ==> p !in cells
    ensures IsSquare(Paint(g, cells, colour), n)
    ensures Tiles(Paint(g, cells, colour), n, ps) == Tiles(g, n, ps)
  {
  }

  // ---------------------------------------------------------------------------
  // What a flip does

  /**
   * On a legal direction the flip overwrites exactly the opponent run: the first
   * k cells of the ray, all of which held opponent tiles, before the closing own
   * tile at ray[k]. Every other cell, the origin and the closing tile included,
   * keeps its tile.
   */
  lemma FlipWritesExactlyRun(g: Grid, n: int, row: int, col: int, colour: char, dr: int, dc: int)
    requires IsSquare(g, n) && NonZero(dr, dc)
    requires LegalInDirection(g, n, row, col, colour, dr, dc)
    ensures var ray, k := Ray(n, row, col, dr, dc), |Run(g, n, row, col, colour, dr, dc)|;
      && 1 <= k < |ray|
      && SandwichAt(Tiles(g, n, ray), colour, k)
      && Run(g, n, row, col, colour, dr, dc) == ray[..k]
      && (forall i :: 0 <= i < k ==> Opponent(g[ray[i].0][ray[i].1], colour))
      && Own(g[ray[k].0][ray[k].1], colour)
      && (forall i, j :: 0 <= i < n && 0 <= j < n ==>
            FlipGrid(g, n, row, col, colour, dr, dc)[i][j] == if (i, j) in ray[..k] then colour else g[i][j])
      && ray[k] !in ray[..k]
      && (row, col) !in ray
  {
    var ray := Ray(n, row, col, dr, dc);
    var s := Tiles(g, n, ray);
    var k :| SandwichAt(s, colour, k);
    SandwichLength(s, colour, k);
    RayIsSimple(n, row, col, dr, dc);
    forall i | 0 <= i < k
      ensures Opponent(g[ray[i].0][ray[i].1], colour)
    {
      assert s[i] == g[ray[i].0][ray[i].1];
    }
    assert s[k] == g[ray[k].0][ray[k].1];
    assert ray[k] !in ray[..k] by {
      forall i | 0 <= i < k ensures ray[i] != ray[k] { }
    }
  }

  /** The run lies on the ray. */
  lemma RunOnRay(g: Grid, n: int, row: int, col: int, colour: char, dr: int, dc: int)
    requires IsSquare(g, n) && NonZero(dr, dc)
    ensures forall p :: p in Run(g, n, row, col, colour, dr, dc) ==> p in Ray(n, row, col, dr, dc)
  {
    var ray := Ray(n, row, col, dr, dc);
    var k := PrefixLen(Tiles(g, n, ray), colour);
    forall p | p in ray[..k]
      ensures p in ray
    {
      var x :| 0 <= x < k && ray[..k][x] == p;
      assert ray[x] == p;
    }
  }

  /** Along a capturing direction every cell of the run holds an opponent tile. */
  lemma RunIsCaptured(g: Grid, n: int, row: int, col: int, colour: char, dr: int, dc: int, p: Pos)
    requires IsSquare(g, n) && NonZero(dr, dc)
    requires LegalInDirection(g, n, row, col, colour, dr, dc) && p in Run(g, n, row, col, colour, dr, dc)
    ensures PositionInBounds(n, p.0, p.1) && Opponent(g[p.0][p.1], colour) && p in Ray(n, row, col, dr, dc)
  {
    var ray := Ray(n, row, col, dr, dc);
    var s := Tiles(g, n, ray);
    var k :| SandwichAt(s, colour, k);
    SandwichLength(s, colour, k);
    var x :| 0 <= x < k && ray[..k][x] == p;
    assert ray[x] == p;
    assert s[x] == g[p.0][p.1];
  }

  /**
   * Flipping one compass direction does not change what the scan sees in any
   * other compass direction from the same origin.
   */
  lemma FlipKeepsOtherDirections(g: Grid, n: int, row: int, col: int, colour: char,
                                 dr: int, dc: int, er: int, ec: int)
    requires IsSquare(g, n) && IsDirection(dr, dc) && IsDirection(er, ec) && (dr, dc) != (er, ec)
    ensures var f := FlipGrid(g, n, row, col, colour, dr, dc);
      && (LegalInDirection(f, n, row, col, colour, er, ec) <==> LegalInDirection(g, n, row, col, colour, er, ec))
      && Run(f, n, row, col, colour, er, ec) == Run(g, n, row, col, colour, er, ec)
  {
    var ray := Ray(n, row, col, er, ec);
    var cells := AsSet(Run(g, n, row, col, colour, dr, dc));
    RaysDisjoint(n, row, col, dr, dc, er, ec);
    assert forall p :: p in cells ==> p in Ray(n, row, col, dr, dc);
    TilesUnpainted(g, n, ray, cells, colour);
  }

  // ---------------------------------------------------------------------------
  // The source's two ray walks

  /**
   * The scan of checkLegalInDirection, one cell at a time from (r, c): 'U' or
   * leaving the board ends it with false, an opponent tile is crossed,
   * and an own tile ends it with whether an opponent tile was crossed.
   */
  function ScanFrom(g: Grid, n: int, r: int, c: int, colour: char, dr: int, dc: int, found: bool): bool
    requires IsSquare(g, n) && NonZero(dr, dc)
    decreases StepsToEdge(n, r, c, dr, dc)
  {
    if !PositionInBounds(n, r, c) then false
    else if g[r][c] == Empty then false
    else if g[r][c] != colour then ScanFrom(g, n, r + dr, c + dc, colour, dr, dc, true)
    else found
  }

  /** The flip loop, one cell at a time from (r, c). */
  function FlipFrom(g: Grid, n: int, r: int, c: int, colour: char, dr: int, dc: int): (h: Grid)
    requires IsSquare(g, n) && NonZero(dr, dc)
    ensures IsSquare(h, n)
    decreases StepsToEdge(n, r, c, dr, dc)
  {
    if !PositionInBounds(n, r, c) || g[r][c] == colour then g
    else FlipFrom(SetCell(g, r, c, colour), n, r + dr, c + dc, colour, dr, dc)
  }

  /**
   * The cell-by-cell scan decides the sandwich rule: it answers true exactly
   * when the tiles ahead are a run of opponent tiles closed by an own tile, the
   * run being allowed to be empty once an opponent tile has been crossed.
   */
  lemma {:induction false} ScanFromDecidesSandwich(g: Grid, n: int, r: int, c: int, colour: char,
                                                   dr: int, dc: int, found: bool)
    requires IsSquare(g, n) && NonZero(dr, dc)
    ensures ScanFrom(g, n, r, c, colour, dr, dc, found) <==>
      exists k :: ClosedAt(Tiles(g, n, RayFrom(n, r, c, dr, dc)), colour, k) && (found || k >= 1)
    decreases StepsToEdge(n, r, c, dr, dc)
  {
    var t := Tiles(g, n, RayFrom(n, r, c, dr, dc));
    if PositionInBounds(n, r, c) {
      var t' := Tiles(g, n, RayFrom(n, r + dr, c + dc, dr, dc));
      assert t == [g[r][c]] + t';
      if g[r][c] == Empty {
        assert !Own(t[0], colour) && !Opponent(t[0], colour);
      } else if g[r][c] != colour {
        ScanFromDecidesSandwich(g, n, r + dr, c + dc, colour, dr, dc, true);
        if ScanFrom(g, n, r, c, colour, dr, dc, found) {
          var k' :| ClosedAt(t', colour, k');
          assert ClosedAt(t, colour, k' + 1);
        }
        forall k | ClosedAt(t, colour, k)
          ensures k >= 1 && ClosedAt(t', colour, k - 1)
        {
          assert Opponent(t[0], colour);
          forall i | 0 <= i < k - 1
            ensures Opponent(t'[i], colour)
          {
            assert t'[i] == t[i + 1];
          }
        }
      } else {
        if found {
          assert ClosedAt(t, colour, 0);
        }
        forall k | ClosedAt(t, colour, k)
          ensures k == 0
        {
          assert !Opponent(t[0], colour);
        }
      }
    }
  }

  /** Scanning from the first cell of the ray decides legality in that direction. */
  lemma ScanDecidesLegality(g: Grid, n: int, row: int, col: int, colour: char, dr: int, dc: int)
    requires IsSquare(g, n) && NonZero(dr, dc)
    ensures ScanFrom(g, n, row + dr, col + dc, colour, dr, dc, false)
      <==> LegalInDirection(g, n, row, col, colour, dr, dc)
  {
    var t := Tiles(g, n, Ray(n, row, col, dr, dc));
    ScanFromDecidesSandwich(g, n, row + dr, col + dc, colour, dr, dc, false);
    if ScanFrom(g, n, row + dr, col + dc, colour, dr, dc, false) {
      var k :| ClosedAt(t, colour, k) && k >= 1;
      assert SandwichAt(t, colour, k);
    }
    if LegalInDirection(g, n, row, col, colour, dr, dc) {
      var k :| SandwichAt(t, colour, k);
      assert ClosedAt(t, colour, k) && k >= 1;
    }
  }

  /** `g` with the cells from (r, c) up to the first one holding `colour` painted `colour`. */
  function PaintedPrefix(g: Grid, n: int, r: int, c: int, colour: char, dr: int, dc: int): Grid
    requires IsSquare(g, n) && NonZero(dr, dc)
  {
    var ps := RayFrom(n, r, c, dr, dc);
    Paint(g, AsSet(ps[..PrefixLen(Tiles(g, n, ps), colour)]), colour)
  }

  /** The walk in the flip loop paints the ray up to its first cell holding `colour`. */
  lemma {:induction false} FlipFromPaintsPrefix(g: Grid, n: int, r: int, c: int, colour: char, dr: int, dc: int)
    requires IsSquare(g, n) && NonZero(dr, dc)
    ensures FlipFrom(g, n, r, c, colour, dr, dc) == PaintedPrefix(g, n, r, c, colour, dr, dc)
    decreases StepsToEdge(n, r, c, dr, dc)
  {
    if !PositionInBounds(n, r, c) || g[r][c] == colour {
      var ps := RayFrom(n, r, c, dr, dc);
      assert PrefixLen(Tiles(g, n, ps), colour) == 0;
      assert AsSet(ps[..0]) == {};
      GridsEqual(g, Paint(g, {}, colour));
    } else {
      var g' := SetCell(g, r, c, colour);
      StepTowardsEdge(n, r, c, dr, dc);
      PaintedCellOffRest(g, n, r, c, colour, dr, dc);
      FlipFromPaintsPrefix(g', n, r + dr, c + dc, colour, dr, dc);
      PaintStep(g, n, r, c, colour, dr, dc);
    }
  }

  /**
   * Painting the first cell of the ray and then the prefix of the rest is
   * painting the prefix of the whole ray.
   */
  lemma PaintStep(g: Grid, n: int, r: int, c: int, colour: char, dr: int, dc: int)
    requires IsSquare(g, n) && NonZero(dr, dc)
    requires PositionInBounds(n, r, c) && g[r][c] != colour
    ensures IsSquare(SetCell(g, r, c, colour), n)
    ensures PaintedPrefix(SetCell(g, r, c, colour), n, r + dr, c + dc, colour, dr, dc)
         == PaintedPrefix(g, n, r, c, colour, dr, dc)
  {
    var ps := RayFrom(n, r, c, dr, dc);
    var rest := RayFrom(n, r + dr, c + dc, dr, dc);
    var g' := SetCell(g, r, c, colour);
    PaintedCellOffRest(g, n, r, c, colour, dr, dc);
    var p := PrefixLen(Tiles(g, n, rest), colour);
    PrefixStep(g, n, r, c, colour, dr, dc);
    assert ps == [(r, c)] + rest;
    AsSetPrefixCons((r, c), rest, p);
    SetCellIsPaint(g, r, c, colour);
    PaintTwice(g, {(r, c)}, AsSet(rest[..p]), colour);
  }

  /** Overwriting the first cell of a ray leaves the tiles on the rest of it unchanged. */
  lemma PaintedCellOffRest(g: Grid, n: int, r: int, c: int, colour: char, dr: int, dc: int)
    requires IsSquare(g, n) && NonZero(dr, dc) && PositionInBounds(n, r, c)
    ensures IsSquare(SetCell(g, r, c, colour), n)
    ensures Tiles(SetCell(g, r, c, colour), n, RayFrom(n, r + dr, c + dc, dr, dc))
         == Tiles(g, n, RayFrom(n, r + dr, c + dc, dr, dc))
  {
    RayFromApproachesEdge(n, r + dr, c + dc, dr, dc);
    StepTowardsEdge(n, r, c, dr, dc);
    assert (r, c) !in RayFrom(n, r + dr, c + dc, dr, dc);
    SetCellIsPaint(g, r, c, colour);
    TilesUnpainted(g, n, RayFrom(n, r + dr, c + dc, dr, dc), {(r, c)}, colour);
  }

  /** A first cell not holding `colour` adds one to the prefix length. */
  lemma PrefixStep(g: Grid, n: int, r: int, c: int, colour: char, dr: int, dc: int)
    requires IsSquare(g, n) && NonZero(dr, dc)
    requires PositionInBounds(n, r, c) && g[r][c] != colour
    ensures PrefixLen(Tiles(g, n, RayFrom(n, r, c, dr, dc)), colour)
         == 1 + PrefixLen(Tiles(g, n, RayFrom(n, r + dr, c + dc, dr, dc)), colour)
  {
    assert Tiles(g, n, RayFrom(n, r, c, dr, dc))[1..] == Tiles(g, n, RayFrom(n, r + dr, c + dc, dr, dc));
  }

  lemma AsSetPrefixCons(x: Pos, s: seq<Pos>, p: nat)
    requires p <= |s|
    ensures AsSet(([x] + s)[..p + 1]) == {x} + AsSet(s[..p])
  {
    assert ([x] + s)[..p + 1] == [x] + s[..p];
  }

  /** The flip walk from the first cell of the ray computes `FlipGrid`. */
  lemma FlipFromIsFlipGrid(g: Grid, n: int, row: int, col: int, colour: char, dr: int, dc: int)
    requires IsSquare(g, n) && NonZero(dr, dc)
    ensures FlipFrom(g, n, row + dr, col + dc, colour, dr, dc) == FlipGrid(g, n, row, col, colour, dr, dc)
  {
    FlipFromPaintsPrefix(g, n, row + dr, col + dc, colour, dr, dc);
  }

  /** checkLegalInDirection: walk the ray and apply the sandwich rule; the board is only read. */
  method CheckLegalInDirection(board: array2<char>, n: int, row: int, col: int, colour: char,
                               deltaRow: int, deltaCol: int) returns (legal: bool)
    requires ValidBoard(board, n) && NonZero(deltaRow, deltaCol)
    ensures legal <==> LegalInDirection(Cells(board), n, row, col, colour, deltaRow, deltaCol)
  {
    ghost var g := Cells(board);
    ghost var answer := ScanFrom(g, n, row + deltaRow, col + deltaCol, colour, deltaRow, deltaCol, false);
    ScanDecidesLegality(g, n, row, col, colour, deltaRow, deltaCol);

    var currRow := row + deltaRow;
    var currCol := col + deltaCol;
    var foundPath := false;
    var validPos := PositionInBounds(n, currRow, currCol);
    while validPos
      invariant validPos == PositionInBounds(n, currRow, currCol)
      invariant ScanFrom(g, n, currRow, currCol, colour, deltaRow, deltaCol, foundPath) == answer
      decreases StepsToEdge(n, currRow, currCol, deltaRow, deltaCol)
    {
      var currPos := board[currRow, currCol];
      if currPos == Empty {
        return false;
      }
      if currPos != colour {
        foundPath := true;
        currRow := currRow + deltaRow;
        currCol := currCol + deltaCol;
      } else {
        return foundPath;
      }
      validPos := PositionInBounds(n, currRow, currCol);
    }
    return false;
  }

  /**
   * flip: overwrite cells along the ray with `colour` until a cell already
   * holding `colour` is met or the walk leaves the board.
   */
  method Flip(board: array2<char>, n: int, row: int, col: int, colour: char, deltaRow: int, deltaCol: int)
    requires ValidBoard(board, n) && NonZero(deltaRow, deltaCol)
    modifies board
    ensures Cells(board) == FlipGrid(old(Cells(board)), n, row, col, colour, deltaRow, deltaCol)
  {
    ghost var g := Cells(board);
    ghost var result := FlipFrom(g, n, row + deltaRow, col + deltaCol, colour, deltaRow, deltaCol);

    var currRow := row + deltaRow;
    var currCol := col + deltaCol;
    while PositionInBounds(n, currRow, currCol) && board[currRow, currCol] != colour
      invariant FlipFrom(Cells(board), n, currRow, currCol, colour, deltaRow, deltaCol) == result
      decreases StepsToEdge(n, currRow, currCol, deltaRow, deltaCol)
    {
      assert FlipFrom(Cells(board), n, currRow, currCol, colour, deltaRow, deltaCol)
          == FlipFrom(SetCell(Cells(board), currRow, currCol, colour), n, currRow + deltaRow, currCol + deltaCol,
                      colour, deltaRow, deltaCol);
      StepTowardsEdge(n, currRow, currCol, deltaRow, deltaCol);
      SetTile(board, currRow, currCol, colour);
      currRow := currRow + deltaRow;
      currCol := currCol + deltaCol;
    }
    assert FlipFrom(Cells(board), n, currRow, currCol, colour, deltaRow, deltaCol) == Cells(board);
    FlipFromIsFlipGrid(g, n, row, col, colour, deltaRow, deltaCol);
  }
}
