/** The move engine of scripts/puzzle.js as functions of the layout: the run of
    tilesBetween, the unit step of movementDelta and the effect of makeMove.
    A layout `cells` gives the cell of every tile by board index; the blank
    (emptyTile) is always the last tile, board[size * size - 1]. */
module Moves {
  import opened Geometry
  import opened Counting

  /** The filter of tilesBetween for one cell p: inside the box spanned by
      `tile1` and `tile2`, on tile2's row or column, and not tile2's own cell. */
  predicate Between(tile1: Pos, tile2: Pos, p: Pos)
  {
    var leftCol := if tile1.col <= tile2.col then tile1.col else tile2.col;
    var rightCol := if tile1.col <= tile2.col then tile2.col else tile1.col;
    var leftRow := if tile1.row <= tile2.row then tile1.row else tile2.row;
    var rightRow := if tile1.row <= tile2.row then tile2.row else tile1.row;
    && leftCol <= p.col <= rightCol
    && leftRow <= p.row <= rightRow
    && (p.row == tile2.row || p.col == tile2.col)
    && (p.row != tile2.row || p.col != tile2.col)
  }

  /** tilesBetween: the board indices, in board order, of the tiles that pass
      the filter between `tile` and the `blank`. */
  function TilesBetween(cells: seq<Pos>, tile: Pos, blank: Pos): (run: seq<nat>)
    ensures forall i :: i in run <==> 0 <= i < |cells| && Between(tile, blank, cells[i])
    ensures forall a, b :: 0 <= a < b < |run| ==> run[a] < run[b]
  {
    IndicesWhere(cells, p => Between(tile, blank, p))
  }

  /** movementDelta: the sign of the blank's offset from `tile`, per axis. */
  function MovementDelta(tile: Pos, blank: Pos): (d: Delta)
    ensures -1 <= d.x <= 1 && -1 <= d.y <= 1
    ensures d.x * (blank.col - tile.col) == Abs(blank.col - tile.col)
    ensures d.y * (blank.row - tile.row) == Abs(blank.row - tile.row)
    ensures (d.x == 0) == (blank.col == tile.col) && (d.y == 0) == (blank.row == tile.row)
    ensures Aligned(tile, blank) && tile != blank ==> (d.x == 0) != (d.y == 0)
  {
    var deltaX := blank.col - tile.col;
    var deltaY := blank.row - tile.row;
    Delta(if deltaX > 0 then 1 else if deltaX < 0 then -1 else 0,
          if deltaY > 0 then 1 else if deltaY < 0 then -1 else 0)
  }

  /** One step by `d` (a tile's updatePos(col + d.x, row + d.y)). */
  function Shift(p: Pos, d: Delta): Pos
  {
    Pos(p.row + d.y, p.col + d.x)
  }

  /** p lies on the straight segment from `tile` to `blank`, both ends included. */
  predicate Closed(tile: Pos, blank: Pos, p: Pos)
  {
    Dist(tile, p) + Dist(p, blank) == Dist(tile, blank)
  }

  /** The reference definition of a run cell: on the segment, not the blank's cell. */
  predicate OnSegment(tile: Pos, blank: Pos, p: Pos)
  {
    Closed(tile, blank, p) && p != blank
  }

  /** The cell k steps from the blank toward `tile`. */
  function Toward(tile: Pos, blank: Pos, k: int): Pos
  {
    if tile.row == blank.row then Pos(blank.row, if tile.col < blank.col then blank.col - k else blank.col + k)
    else Pos(if tile.row < blank.row then blank.row - k else blank.row + k, blank.col)
  }

  /** The target passes makeMove's guards and is not the blank: a real slide. */
  predicate IsSlide(cells: seq<Pos>, target: int)
  {
    0 <= target < |cells| - 1 && Aligned(cells[target], cells[|cells| - 1])
  }

  /** makeMove's two guards: the target is defined (an index of the board) and
      stands on the blank's row or column. */
  predicate PassesGuards(cells: seq<Pos>, target: int)
    requires |cells| > 0
  {
    0 <= target < |cells| && Aligned(cells[target], cells[|cells| - 1])
  }

  /** The tiles makeMove and highlightNeighbors act on for `target`: its run
      when the target passes their guards, none otherwise. The blank is never
      in it, and a run with tiles in it comes from a target that passed. */
  function RunOf(cells: seq<Pos>, target: int): (run: seq<nat>)
    requires |cells| > 0
    ensures forall i :: i in run ==> 0 <= i < |cells| - 1
    ensures forall a, b :: 0 <= a < b < |run| ==> run[a] < run[b]
    ensures run != [] ==> PassesGuards(cells, target)
  {
    if PassesGuards(cells, target) then TilesBetween(cells, cells[target], cells[|cells| - 1]) else []
  }

  /** makeMove. A target outside [0, |cells|) is `undefined`; a target on neither
      the blank's row nor its column is refused; otherwise every tile of the run
      steps by the delta and the blank goes back by the delta times the run's length.
      No tile outside the run, other than the blank, ever moves. */
  function MakeMove(cells: seq<Pos>, target: int): (r: seq<Pos>)
    requires |cells| > 0
    ensures |r| == |cells|
    ensures forall i :: 0 <= i < |cells| - 1 && i !in RunOf(cells, target) ==> r[i] == cells[i]
  {
    if !PassesGuards(cells, target) then cells
    else
      var blank := cells[|cells| - 1];
      var tile := cells[target];
      var neighbors := TilesBetween(cells, tile, blank);
      var deltas := MovementDelta(tile, blank);
      seq(|cells|, i requires 0 <= i < |cells| =>
        if i == |cells| - 1 then Pos(blank.row - deltas.y * |neighbors|, blank.col - deltas.x * |neighbors|)
        else if i in neighbors then Shift(cells[i], deltas)
        else cells[i])
  }

  // ---------------------------------------------------------------------------
  // The run

  /** Along a shared row or column, tilesBetween's filter is exactly the segment
      from the target (included) to the blank (excluded). */
  lemma BetweenIsSegment(tile: Pos, blank: Pos, p: Pos)
    requires Aligned(tile, blank)
    ensures Between(tile, blank, p) <==> OnSegment(tile, blank, p)
  {
  }

  lemma TowardOnSegment(size: nat, tile: Pos, blank: Pos, k: int)
    requires Aligned(tile, blank) && InGrid(size, tile) && InGrid(size, blank)
    requires 1 <= k <= Dist(tile, blank)
    ensures OnSegment(tile, blank, Toward(tile, blank, k))
    ensures Dist(Toward(tile, blank, k), blank) == k
    ensures InGrid(size, Toward(tile, blank, k))
  {
  }

  lemma SegmentByDistance(tile: Pos, blank: Pos, p: Pos, q: Pos)
    requires Aligned(tile, blank)
    requires OnSegment(tile, blank, p) && OnSegment(tile, blank, q)
    requires Dist(p, blank) == Dist(q, blank)
    ensures p == q
  {
  }

  lemma RunWithinDistance(tile: Pos, blank: Pos, p: Pos)
    requires Aligned(tile, blank) && Between(tile, blank, p)
    ensures 1 <= Dist(p, blank) <= Dist(tile, blank)
  {
    BetweenIsSegment(tile, blank, p);
  }

  /** The run tile k steps from the blank, for every k up to the distance. */
  lemma RunReaches(size: nat, cells: seq<Pos>, tile: Pos, blank: Pos, k: int) returns (i: nat)
    requires IsGrid(size, cells) && InGrid(size, tile) && InGrid(size, blank) && Aligned(tile, blank)
    requires 1 <= k <= Dist(tile, blank)
    ensures i < |cells| && Between(tile, blank, cells[i]) && Dist(cells[i], blank) == k
  {
    var p := Toward(tile, blank, k);
    TowardOnSegment(size, tile, blank, k);
    BetweenIsSegment(tile, blank, p);
    assert Occupied(cells, p);
    i :| 0 <= i < |cells| && cells[i] == p;
  }

  /** The run's indices, as a set. */
  function RunSet(cells: seq<Pos>, tile: Pos, blank: Pos): set<int>
  {
    set i: int | i in TilesBetween(cells, tile, blank)
  }

  /** The distances 1, ..., d, as a set. */
  function Steps(d: nat): set<int>
  {
    var ks := Interval(1, d + 1);
    set k: int | k in ks
  }

  /** How far tile i stands from the blank (0 for an index off the board). */
  function DistOf(cells: seq<Pos>, blank: Pos, i: int): int
  {
    if 0 <= i < |cells| then Dist(cells[i], blank) else 0
  }

  lemma RunSetCard(cells: seq<Pos>, tile: Pos, blank: Pos)
    ensures |RunSet(cells, tile, blank)| == |TilesBetween(cells, tile, blank)|
  {
    var indices: seq<int> := TilesBetween(cells, tile, blank);
    DistinctCard(indices);
  }

  lemma StepsCard(d: nat)
    ensures |Steps(d)| == d
  {
    DistinctCard(Interval(1, d + 1));
  }

  lemma RunIntoSteps(cells: seq<Pos>, tile: Pos, blank: Pos)
    requires Aligned(tile, blank)
    ensures forall a :: a in RunSet(cells, tile, blank) ==> DistOf(cells, blank, a) in Steps(Dist(tile, blank))
  {
    forall a | a in RunSet(cells, tile, blank) ensures DistOf(cells, blank, a) in Steps(Dist(tile, blank)) {
      RunWithinDistance(tile, blank, cells[a]);
    }
  }

  lemma RunOneToOne(size: nat, cells: seq<Pos>, tile: Pos, blank: Pos)
    requires IsGrid(size, cells) && Aligned(tile, blank)
    ensures forall a, a' ::
      (a in RunSet(cells, tile, blank) && a' in RunSet(cells, tile, blank) &&
       DistOf(cells, blank, a) == DistOf(cells, blank, a')) ==> a == a'
  {
    forall a, a' | a in RunSet(cells, tile, blank) && a' in RunSet(cells, tile, blank) &&
      DistOf(cells, blank, a) == DistOf(cells, blank, a')
      ensures a == a'
    {
      BetweenIsSegment(tile, blank, cells[a]);
      BetweenIsSegment(tile, blank, cells[a']);
      SegmentByDistance(tile, blank, cells[a], cells[a']);
    }
  }

  lemma RunOntoSteps(size: nat, cells: seq<Pos>, tile: Pos, blank: Pos)
    requires IsGrid(size, cells) && InGrid(size, tile) && InGrid(size, blank) && Aligned(tile, blank)
    ensures forall b :: b in Steps(Dist(tile, blank)) ==>
      exists a :: a in RunSet(cells, tile, blank) && DistOf(cells, blank, a) == b
  {
    forall b | b in Steps(Dist(tile, blank))
      ensures exists a :: a in RunSet(cells, tile, blank) && DistOf(cells, blank, a) == b
    {
      var i := RunReaches(size, cells, tile, blank, b);
      assert i in RunSet(cells, tile, blank);
    }
  }

  /** On a well-formed board, the run of an aligned target has as many tiles as
      the target is steps away from the blank. */
  lemma {:induction false} RunLength(size: nat, cells: seq<Pos>, tile: Pos, blank: Pos)
    requires IsGrid(size, cells) && InGrid(size, tile) && InGrid(size, blank) && Aligned(tile, blank)
    ensures |TilesBetween(cells, tile, blank)| == Dist(tile, blank)
  {
    RunSetCard(cells, tile, blank);
    StepsCard(Dist(tile, blank));
    RunIntoSteps(cells, tile, blank);
    RunOneToOne(size, cells, tile, blank);
    RunOntoSteps(size, cells, tile, blank);
    BijectionCard(RunSet(cells, tile, blank), Steps(Dist(tile, blank)), i => DistOf(cells, blank, i));
  }

  // ---------------------------------------------------------------------------
  // Steps along the segment

  /** Segments are symmetric: the one from the blank to the target is the same set of cells. */
  lemma ClosedSymmetric(tile: Pos, blank: Pos, p: Pos)
    ensures Closed(tile, blank, p) == Closed(blank, tile, p)
  {
  }

  lemma ClosedInGrid(size: nat, tile: Pos, blank: Pos, p: Pos)
    requires InGrid(size, tile) && InGrid(size, blank) && Aligned(tile, blank) && Closed(tile, blank, p)
    ensures InGrid(size, p)
  {
  }

  /** A run cell stepped toward the blank stays on the segment, leaves the
      target's cell, and comes one step nearer to the blank. */
  lemma ShiftAlong(tile: Pos, blank: Pos, p: Pos)
    requires Aligned(tile, blank) && tile != blank && OnSegment(tile, blank, p)
    ensures Closed(tile, blank, Shift(p, MovementDelta(tile, blank)))
    ensures Shift(p, MovementDelta(tile, blank)) != tile
    ensures Dist(Shift(p, MovementDelta(tile, blank)), blank) + 1 == Dist(p, blank)
  {
  }

  /** Every segment cell other than the target is reached by stepping a run cell. */
  lemma UnshiftAlong(tile: Pos, blank: Pos, p: Pos)
    requires Aligned(tile, blank) && tile != blank && Closed(tile, blank, p) && p != tile
    ensures var d := MovementDelta(tile, blank);
      OnSegment(tile, blank, Pos(p.row - d.y, p.col - d.x)) && Shift(Pos(p.row - d.y, p.col - d.x), d) == p
  {
  }

  /** Stepping back from the blank by the delta, distance times, lands on the target. */
  lemma BackByDistance(tile: Pos, blank: Pos)
    requires Aligned(tile, blank)
    ensures var d := MovementDelta(tile, blank);
      Pos(blank.row - d.y * Dist(tile, blank), blank.col - d.x * Dist(tile, blank)) == tile
  {
    var d := MovementDelta(tile, blank);
    if tile.row == blank.row {
      assert d.y == 0;
      if tile.col < blank.col { assert d.x == 1; } else if tile.col > blank.col { assert d.x == -1; }
    } else {
      assert d.x == 0;
      if tile.row < blank.row { assert d.y == 1; } else { assert d.y == -1; }
    }
  }

  // ---------------------------------------------------------------------------
  // makeMove

  /** A target that is undefined, on neither the blank's row nor its column, or
      the blank itself leaves every tile where it was. */
  lemma MoveRefused(cells: seq<Pos>, target: int)
    requires |cells| > 0 && !IsSlide(cells, target)
    ensures MakeMove(cells, target) == cells
  {
    if target == |cells| - 1 {
      var blank := cells[|cells| - 1];
      var neighbors := TilesBetween(cells, blank, blank);
      RunSetCard(cells, blank, blank);
      assert RunSet(cells, blank, blank) == {};
      assert MovementDelta(blank, blank) == Delta(0, 0);
    }
  }

  /** Where a non-blank tile goes in a slide: one step toward the blank when it
      stands on the segment from the target to the blank, nowhere otherwise. */
  lemma SlideTile(cells: seq<Pos>, target: int, i: int)
    requires IsSlide(cells, target) && 0 <= i < |cells| - 1
    ensures MakeMove(cells, target)[i] ==
      if OnSegment(cells[target], cells[|cells| - 1], cells[i])
      then Shift(cells[i], MovementDelta(cells[target], cells[|cells| - 1]))
      else cells[i]
  {
    BetweenIsSegment(cells[target], cells[|cells| - 1], cells[i]);
  }

  /** Where the blank goes in a slide on a well-formed board: onto the target's cell. */
  lemma SlideBlank(size: nat, cells: seq<Pos>, target: int)
    requires IsGrid(size, cells) && IsSlide(cells, target)
    ensures MakeMove(cells, target)[|cells| - 1] == cells[target]
  {
    RunLength(size, cells, cells[target], cells[|cells| - 1]);
    BackByDistance(cells[target], cells[|cells| - 1]);
  }

  /** What a slide does: the blank lands on the target's cell, every tile on the
      segment from the target to the blank steps one cell toward the blank, and
      every other tile stays. */
  lemma SlideEffect(size: nat, cells: seq<Pos>, target: int)
    requires IsGrid(size, cells) && IsSlide(cells, target)
    ensures MakeMove(cells, target)[|cells| - 1] == cells[target]
    ensures forall i :: 0 <= i < |cells| - 1 ==>
      MakeMove(cells, target)[i] ==
        if OnSegment(cells[target], cells[|cells| - 1], cells[i])
        then Shift(cells[i], MovementDelta(cells[target], cells[|cells| - 1]))
        else cells[i]
  {
    SlideBlank(size, cells, target);
    forall i | 0 <= i < |cells| - 1
      ensures MakeMove(cells, target)[i] ==
        if OnSegment(cells[target], cells[|cells| - 1], cells[i])
        then Shift(cells[i], MovementDelta(cells[target], cells[|cells| - 1]))
        else cells[i]
    {
      SlideTile(cells, target, i);
    }
  }

  lemma SlideInGrid(size: nat, cells: seq<Pos>, target: int)
    requires IsGrid(size, cells) && IsSlide(cells, target)
    ensures forall i :: 0 <= i < |cells| ==> InGrid(size, MakeMove(cells, target)[i])
  {
    var tile, blank := cells[target], cells[|cells| - 1];
    SlideEffect(size, cells, target);
    forall i | 0 <= i < |cells| - 1 && OnSegment(tile, blank, cells[i])
      ensures InGrid(size, MakeMove(cells, target)[i])
    {
      ShiftAlong(tile, blank, cells[i]);
      ClosedInGrid(size, tile, blank, MakeMove(cells, target)[i]);
    }
  }

  lemma SlideInjective(size: nat, cells: seq<Pos>, target: int)
    requires IsGrid(size, cells) && IsSlide(cells, target)
    ensures forall i, j :: 0 <= i < j < |cells| ==> MakeMove(cells, target)[i] != MakeMove(cells, target)[j]
  {
    var tile, blank := cells[target], cells[|cells| - 1];
    var r := MakeMove(cells, target);
    var n := |cells|;
    SlideEffect(size, cells, target);
    assert OnSegment(tile, blank, tile);
    forall i, j | 0 <= i < j < n ensures r[i] != r[j] {
      if OnSegment(tile, blank, cells[i]) {
        ShiftAlong(tile, blank, cells[i]);
      }
      if j < n - 1 && OnSegment(tile, blank, cells[j]) {
        ShiftAlong(tile, blank, cells[j]);
      }
    }
  }

  lemma CoverOnSegment(size: nat, cells: seq<Pos>, target: int, p: Pos) returns (i: int)
    requires IsGrid(size, cells) && IsSlide(cells, target) && InGrid(size, p)
    requires Closed(cells[target], cells[|cells| - 1], p) && p != cells[target]
    ensures 0 <= i < |cells| && MakeMove(cells, target)[i] == p
  {
    var tile, blank := cells[target], cells[|cells| - 1];
    assert tile != blank;
    var d := MovementDelta(tile, blank);
    var q := Pos(p.row - d.y, p.col - d.x);
    UnshiftAlong(tile, blank, p);
    assert InGrid(size, q) by {
      ClosedInGrid(size, tile, blank, q);
    }
    assert Occupied(cells, q);
    i :| 0 <= i < |cells| && cells[i] == q;
    SlideTile(cells, target, i);
  }

  lemma CoverOffSegment(size: nat, cells: seq<Pos>, target: int, p: Pos) returns (i: int)
    requires IsGrid(size, cells) && IsSlide(cells, target) && InGrid(size, p)
    requires !Closed(cells[target], cells[|cells| - 1], p)
    ensures 0 <= i < |cells| && MakeMove(cells, target)[i] == p
  {
    assert Occupied(cells, p);
    i :| 0 <= i < |cells| && cells[i] == p;
    assert i != |cells| - 1;
    SlideTile(cells, target, i);
  }

  /** The tile that covers cell p after a slide. */
  lemma SlideCovers(size: nat, cells: seq<Pos>, target: int, p: Pos) returns (i: int)
    requires IsGrid(size, cells) && IsSlide(cells, target) && InGrid(size, p)
    ensures 0 <= i < |cells| && MakeMove(cells, target)[i] == p
  {
    if p == cells[target] {
      SlideEffect(size, cells, target);
      i := |cells| - 1;
    } else if Closed(cells[target], cells[|cells| - 1], p) {
      i := CoverOnSegment(size, cells, target, p);
    } else {
      i := CoverOffSegment(size, cells, target, p);
    }
  }

  lemma SlideOnto(size: nat, cells: seq<Pos>, target: int)
    requires IsGrid(size, cells) && IsSlide(cells, target)
    ensures forall p :: InGrid(size, p) ==> Occupied(MakeMove(cells, target), p)
  {
    forall p | InGrid(size, p) ensures Occupied(MakeMove(cells, target), p) {
      var i := SlideCovers(size, cells, target, p);
    }
  }

  /** makeMove keeps the board well formed: the tiles still occupy every cell once. */
  lemma MoveKeepsGrid(size: nat, cells: seq<Pos>, target: int)
    requires IsGrid(size, cells) && size >= 1
    ensures IsGrid(size, MakeMove(cells, target))
  {
    if IsSlide(cells, target) {
      SlideInGrid(size, cells, target);
      SlideInjective(size, cells, target);
      SlideOnto(size, cells, target);
    } else {
      MoveRefused(cells, target);
    }
  }

  /** On a well-formed board makeMove changes something exactly when the target
      is a slide: defined, on the blank's row or column, and not the blank. */
  lemma MoveChangesIffSlide(size: nat, cells: seq<Pos>, target: int)
    requires IsGrid(size, cells) && size >= 1
    ensures MakeMove(cells, target) != cells <==> IsSlide(cells, target)
  {
    if IsSlide(cells, target) {
      SlideEffect(size, cells, target);
      assert MakeMove(cells, target)[|cells| - 1] != cells[|cells| - 1];
    } else {
      MoveRefused(cells, target);
    }
  }

  lemma UndoAt(cells: seq<Pos>, target: int, back: int, i: int)
    requires IsSlide(cells, target) && IsSlide(MakeMove(cells, target), back)
    requires MakeMove(cells, target)[back] == cells[|cells| - 1]
    requires MakeMove(cells, target)[|cells| - 1] == cells[target]
    requires 0 <= i < |cells| - 1 && cells[i] != cells[|cells| - 1]
    ensures MakeMove(MakeMove(cells, target), back)[i] == cells[i]
  {
    var tile, blank := cells[target], cells[|cells| - 1];
    var r := MakeMove(cells, target);
    SlideTile(cells, target, i);
    SlideTile(r, back, i);
    var d := MovementDelta(tile, blank);
    assert MovementDelta(blank, tile) == Delta(-d.x, -d.y);
    if OnSegment(tile, blank, cells[i]) {
      ShiftAlong(tile, blank, cells[i]);
      ClosedSymmetric(tile, blank, r[i]);
    } else {
      ClosedSymmetric(tile, blank, cells[i]);
    }
  }

  lemma UndoEverywhere(cells: seq<Pos>, target: int, back: int)
    requires IsSlide(cells, target) && IsSlide(MakeMove(cells, target), back)
    requires MakeMove(cells, target)[back] == cells[|cells| - 1]
    requires MakeMove(cells, target)[|cells| - 1] == cells[target]
    requires MakeMove(MakeMove(cells, target), back)[|cells| - 1] == cells[|cells| - 1]
    requires forall i :: 0 <= i < |cells| - 1 ==> cells[i] != cells[|cells| - 1]
    ensures MakeMove(MakeMove(cells, target), back) == cells
  {
    var undone := MakeMove(MakeMove(cells, target), back);
    forall i | 0 <= i < |cells| ensures undone[i] == cells[i] {
      if i < |cells| - 1 {
        UndoAt(cells, target, back, i);
      }
    }
    assert undone == cells;
  }

  /** Moving the tile that now stands on the blank's old cell puts every tile
      back: a slide is undone by the slide in the opposite direction. */
  lemma {:induction false} SlideUndo(size: nat, cells: seq<Pos>, target: int, back: int)
    requires IsGrid(size, cells) && IsSlide(cells, target)
    requires 0 <= back < |cells| && MakeMove(cells, target)[back] == cells[|cells| - 1]
    ensures IsSlide(MakeMove(cells, target), back)
    ensures MakeMove(MakeMove(cells, target), back) == cells
  {
    var r := MakeMove(cells, target);
    MoveKeepsGrid(size, cells, target);
    SlideBlank(size, cells, target);
    assert back != |cells| - 1;
    SlideBlank(size, r, back);
    UndoEverywhere(cells, target, back);
  }

  /** For an aligned target on a well-formed board, tilesBetween returns exactly
      the tiles on the segment from the target (included) to the blank (excluded):
      never the blank, and as many as the target is steps away from it. */
  lemma RunIsSegment(size: nat, cells: seq<Pos>, target: int)
    requires IsGrid(size, cells) && 0 <= target < |cells| && Aligned(cells[target], cells[|cells| - 1])
    ensures var run := TilesBetween(cells, cells[target], cells[|cells| - 1]);
      && (forall i :: i in run <==> 0 <= i < |cells| && OnSegment(cells[target], cells[|cells| - 1], cells[i]))
      && |cells| - 1 !in run
      && |run| == Dist(cells[target], cells[|cells| - 1])
  {
    var tile, blank := cells[target], cells[|cells| - 1];
    forall i | 0 <= i < |cells| ensures Between(tile, blank, cells[i]) <==> OnSegment(tile, blank, cells[i]) {
      BetweenIsSegment(tile, blank, cells[i]);
    }
    RunLength(size, cells, tile, blank);
  }

  /** The tiles of `run` stepped by `d`, every other cell as it was. */
  function Slide(cells: seq<Pos>, run: seq<nat>, d: Delta): (r: seq<Pos>)
    ensures |r| == |cells|
    ensures forall i :: 0 <= i < |cells| && i !in run ==> r[i] == cells[i]
  {
    seq(|cells|, i requires 0 <= i < |cells| => if i in run then Shift(cells[i], d) else cells[i])
  }

  /** makeMove in two stages: the run slides, then the blank goes back along
      the line by the run's length. */
  lemma MoveBySlide(cells: seq<Pos>, target: int, run: seq<nat>, d: Delta, blankTo: Pos)
    requires 0 <= target < |cells| && Aligned(cells[target], cells[|cells| - 1])
    requires run == TilesBetween(cells, cells[target], cells[|cells| - 1])
    requires d == MovementDelta(cells[target], cells[|cells| - 1])
    requires blankTo == Pos(cells[|cells| - 1].row - d.y * |run|, cells[|cells| - 1].col - d.x * |run|)
    ensures MakeMove(cells, target) == Slide(cells, run, d)[|cells| - 1 := blankTo]
  {
    var r, s := MakeMove(cells, target), Slide(cells, run, d)[|cells| - 1 := blankTo];
    forall i | 0 <= i < |cells| ensures r[i] == s[i] {
    }
  }

  /** highlightNeighbors and makeMove agree: the tiles lit on hover are exactly
      the tiles the click moves. */
  lemma HoverShowsMove(size: nat, cells: seq<Pos>, target: int)
    requires IsGrid(size, cells)
    ensures forall i :: 0 <= i < |cells| - 1 ==>
      (MakeMove(cells, target)[i] != cells[i] <==> i in RunOf(cells, target))
  {
    if |cells| == 0 {
      return;
    }
    if !IsSlide(cells, target) {
      MoveRefused(cells, target);
      if target == |cells| - 1 {
        RunIsSegment(size, cells, target);
      }
    } else {
      HoverShowsSlide(size, cells, target);
    }
  }

  /** HoverShowsMove for a legal slide: the moved tiles are exactly the run. */
  lemma HoverShowsSlide(size: nat, cells: seq<Pos>, target: int)
    requires IsGrid(size, cells) && IsSlide(cells, target)
    ensures forall i :: 0 <= i < |cells| - 1 ==>
      (MakeMove(cells, target)[i] != cells[i] <==> i in RunOf(cells, target))
  {
    forall i | 0 <= i < |cells| - 1
      ensures MakeMove(cells, target)[i] != cells[i] <==> i in RunOf(cells, target)
    {
      HoverShowsTile(size, cells, target, i);
    }
  }

  /** One tile of a legal slide moves iff it is in the run. */
  lemma HoverShowsTile(size: nat, cells: seq<Pos>, target: int, i: int)
    requires IsGrid(size, cells) && IsSlide(cells, target) && 0 <= i < |cells| - 1
    ensures MakeMove(cells, target)[i] != cells[i] <==> i in RunOf(cells, target)
  {
    var last := |cells| - 1;
    var d := MovementDelta(cells[target], cells[last]);
    assert RunOf(cells, target) == TilesBetween(cells, cells[target], cells[last]);
    assert cells[target] != cells[last];
    SlideTile(cells, target, i);
    BetweenIsSegment(cells[target], cells[last], cells[i]);
    assert Shift(cells[i], d) != cells[i];
  }


}
