/** The objects of scripts/puzzle.js: a Tile whose cell and highlight change in
    place, and the Puzzle that owns the board, the blank and the playable flag.
    Rendering (jQuery elements, pixel offsets, CSS classes) is not modelled;
    a highlight is the `highlighted` flag that select/deselect toggle. */
module Game {
  import opened Geometry
  import opened Moves
  import opened Shuffle

  /** Highlight flags after the tiles of `run` are selected. */
  function Marked(flags: seq<bool>, run: seq<nat>): seq<bool>
  {
    seq(|flags|, i requires 0 <= i < |flags| => flags[i] || i in run)
  }

  /** Highlight flags after the tiles of `run` are deselected. */
  function Cleared(flags: seq<bool>, run: seq<nat>): seq<bool>
  {
    seq(|flags|, i requires 0 <= i < |flags| => flags[i] && i !in run)
  }

  /** Highlight flags `after` light no tile that `before` left dark: a change
      that only clears highlights. */
  predicate OnlyCleared(before: seq<bool>, after: seq<bool>)
  {
    |after| == |before| && forall i :: 0 <= i < |after| && after[i] ==> before[i]
  }

  class Tile {
    const val: int
    var row: int
    var col: int
    var highlighted: bool

    constructor (val: int, row: int, col: int)
      ensures this.val == val && this.row == row && this.col == col && !highlighted
    {
      this.val := val;
      this.row := row;
      this.col := col;
      highlighted := false;
    }

    /** updatePos: the tile's new column and row. */
    method UpdatePos(col: int, row: int)
      modifies this
      ensures this.col == col && this.row == row && highlighted == old(highlighted)
    {
      this.col := col;
      this.row := row;
    }

    method Select()
      modifies this
      ensures highlighted && row == old(row) && col == old(col)
    {
      highlighted := true;
    }

    method Deselect()
      modifies this
      ensures !highlighted && row == old(row) && col == old(col)
    {
      highlighted := false;
    }
  }

  class Puzzle {
    const size: nat
    const board: seq<Tile>
    const emptyTile: Tile
    var playable: bool

    /** The board holds size * size distinct tiles, the blank is the last one,
        and the tiles occupy every cell of the grid exactly once. */
    ghost predicate Valid()
      reads board
    {
      && size >= 1
      && |board| == size * size
      && emptyTile == board[|board| - 1]
      && (forall i, j :: 0 <= i < j < |board| ==> board[i] != board[j])
      && IsGrid(size, Cells())
    }

    /** Where every tile stands, by board index. */
    function Cells(): (cells: seq<Pos>)
      reads board
      ensures |cells| == |board|
      ensures forall i :: 0 <= i < |board| ==> cells[i] == Pos(board[i].row, board[i].col)
    {
      seq(|board|, i requires 0 <= i < |board| reads board => Pos(board[i].row, board[i].col))
    }

    /** Which tiles are highlighted, by board index. */
    ghost function Highlights(): (flags: seq<bool>)
      reads board
      ensures |flags| == |board|
      ensures forall i :: 0 <= i < |board| ==> flags[i] == board[i].highlighted
    {
      seq(|board|, i requires 0 <= i < |board| reads board => board[i].highlighted)
    }

    /** new Puzzle(container, size): the solved board, not yet playable. */
    constructor (size: nat)
      requires size >= 1
      ensures Valid() && !playable && this.size == size
      ensures Cells() == Solved(size)
      ensures forall i :: 0 <= i < |board| ==> board[i].val == i + 1 && !board[i].highlighted
      ensures forall i :: 0 <= i < |board| ==> fresh(board[i])
    {
      this.size := size;
      var tiles := CreateBoard(size);
      board := tiles;
      emptyTile := tiles[size * size - 1];
      playable := false;
      new;
      var cells := Cells();
      forall i | 0 <= i < |board| ensures cells[i] == Solved(size)[i] {
      }
      assert cells == Solved(size);
      SolvedIsGrid(size);
    }

    /** createBoard: size * size fresh tiles in row-major order, tile i numbered
        i + 1 on row i / size and column i % size. */
    static method CreateBoard(size: nat) returns (board: seq<Tile>)
      requires size >= 1
      ensures |board| == size * size
      ensures forall i :: 0 <= i < |board| ==> fresh(board[i])
      ensures forall i :: 0 <= i < |board| ==>
        board[i].val == i + 1 && board[i].row == i / size && board[i].col == i % size && !board[i].highlighted
      ensures forall i, j :: 0 <= i < j < |board| ==> board[i] != board[j]
    {
      board := [];
      var i := 0;
      while i < size * size
        invariant 0 <= i <= size * size && |board| == i
        invariant forall k :: 0 <= k < i ==> fresh(board[k])
        invariant forall k :: 0 <= k < i ==>
          board[k].val == k + 1 && board[k].row == k / size && board[k].col == k % size && !board[k].highlighted
        invariant forall k, l :: 0 <= k < l < i ==> board[k] != board[l]
      {
        var row := i / size;
        var col := i % size;
        var tile := new Tile(i + 1, row, col);
        board := board + [tile];
        i := i + 1;
      }
    }

    /** makeMove(board[target]); an index outside the board reads `undefined`.
        The tiles of the run step by the delta and lose their highlight, then
        the blank goes back by the delta times the run's length. */
    method MakeMove(target: int)
      requires Valid()
      modifies board
      ensures Valid()
      ensures Cells() == Moves.MakeMove(old(Cells()), target)
      ensures Highlights() == Cleared(old(Highlights()), RunOf(old(Cells()), target))
    {
      ghost var cells0, flags0 := Cells(), Highlights();
      if !(0 <= target < |board|) {
        MoveRefused(cells0, target);
        assert Cleared(flags0, []) == flags0;
        return;
      }
      var tile := board[target];
      if tile.row != emptyTile.row && tile.col != emptyTile.col {
        MoveRefused(cells0, target);
        assert Cleared(flags0, []) == flags0;
        return;
      }
      SlideToBlank(target);
    }

    /** makeMove past its two guards: the target shares a row or a column with
        the blank. */
    method SlideToBlank(target: int)
      requires Valid()
      requires 0 <= target < |board|
      requires board[target].row == emptyTile.row || board[target].col == emptyTile.col
      modifies board
      ensures Valid()
      ensures Cells() == Moves.MakeMove(old(Cells()), target)
      ensures Highlights() == Cleared(old(Highlights()), RunOf(old(Cells()), target))
    {
      ghost var cells0, flags0 := Cells(), Highlights();
      var tile := board[target];
      var tilePos, blankPos := Pos(tile.row, tile.col), Pos(emptyTile.row, emptyTile.col);
      var neighbors := TilesBetween(Cells(), tilePos, blankPos);
      var deltas := MovementDelta(tilePos, blankPos);
      assert tilePos == cells0[target] && blankPos == cells0[|board| - 1];
      assert RunOf(cells0, target) == neighbors;
      ghost var blankTo := Pos(blankPos.row - deltas.y * |neighbors|, blankPos.col - deltas.x * |neighbors|);
      MoveBySlide(cells0, target, neighbors, deltas, blankTo);
      MoveKeepsGrid(size, cells0, target);
      SlideRun(neighbors, deltas);
      assert Cells()[|board| - 1] == cells0[|board| - 1];
      var newCol := emptyTile.col - deltas.x * |neighbors|;
      var newRow := emptyTile.row - deltas.y * |neighbors|;
      assert Pos(newRow, newCol) == blankTo;
      ghost var flags := Highlights();
      MoveBlank(newRow, newCol);
      assert Cells() == Moves.MakeMove(cells0, target);
      assert Highlights() == flags == Cleared(flags0, neighbors);
    }
  
    /** highlightNeighbors(board[target]): the run between the target and the
        blank is lit; nothing moves. Same guards as makeMove. */
    method HighlightNeighbors(target: int)
      requires Valid()
      modifies board
      ensures Valid()
      ensures Cells() == old(Cells())
      ensures Highlights() == Marked(old(Highlights()), RunOf(old(Cells()), target))
    {
      ghost var cells0, flags0 := Cells(), Highlights();
      if !(0 <= target < |board|) {
        assert Marked(flags0, []) == flags0;
        return;
      }
      var tile := board[target];
      if tile.row != emptyTile.row && tile.col != emptyTile.col {
        assert Marked(flags0, []) == flags0;
        return;
      }
      var tilePos, blankPos := Pos(tile.row, tile.col), Pos(emptyTile.row, emptyTile.col);
      assert tilePos == cells0[target] && blankPos == cells0[|board| - 1];
      var neighbors := TilesBetween(Cells(), tilePos, blankPos);
      assert RunOf(cells0, target) == neighbors;
      SelectRun(neighbors);
    }

    /** The loop of highlightNeighbors: every tile of `run` is selected. */
    method SelectRun(run: seq<nat>)
      requires forall i, j :: 0 <= i < j < |board| ==> board[i] != board[j]
      requires forall i :: i in run ==> i < |board|
      modifies board
      ensures Cells() == old(Cells())
      ensures Highlights() == Marked(old(Highlights()), run)
    {
      ghost var cells0, flags0 := Cells(), Highlights();
      var k := 0;
      while k < |run|
        invariant 0 <= k <= |run|
        invariant forall i :: 0 <= i < |board| ==> Pos(board[i].row, board[i].col) == cells0[i]
        invariant forall i :: 0 <= i < |board| ==> board[i].highlighted == (flags0[i] || i in run[..k])
      {
        assert run[k] in run;
        assert run[..k + 1] == run[..k] + [run[k]];
        board[run[k]].Select();
        k := k + 1;
      }
      assert run[..k] == run;
      ghost var cells, flags := Cells(), Highlights();
      forall i | 0 <= i < |board| ensures cells[i] == cells0[i] && flags[i] == Marked(flags0, run)[i] {
      }
    }

    /** resetBoard: every tile loses its highlight; nothing moves. */
    method ResetBoard()
      modifies board
      ensures Cells() == old(Cells())
      ensures forall i :: 0 <= i < |board| ==> !Highlights()[i]
    {
      ghost var cells0 := Cells();
      var k := 0;
      while k < |board|
        invariant 0 <= k <= |board|
        invariant forall i :: 0 <= i < |board| ==> Pos(board[i].row, board[i].col) == cells0[i]
        invariant forall i :: 0 <= i < k ==> !board[i].highlighted
      {
        board[k].Deselect();
        k := k + 1;
      }
      ghost var cells := Cells();
      forall i | 0 <= i < |board| ensures cells[i] == cells0[i] {
      }
      assert cells == cells0;
    }

    /** enableBoard: the board answers the mouse again. */
    method EnableBoard()
      modifies this
      ensures playable
    {
      playable := true;
    }

    /** One tick of shuffleBoard's interval: the draw `u` stands for
        Math.random(), the index it gives is read in the blank's cross, and an
        index past the cross reads `undefined`. */
    method ShuffleTick(u: real)
      requires Valid() && !playable && 0.0 <= u < 1.0
      modifies board
      ensures Valid()
      ensures Cells() == ShuffleStep(old(Cells()), u)
      ensures Highlights() == Cleared(old(Highlights()), RunOf(old(Cells()), StepTarget(old(Cells()), u)))
    {
      var tiles := CrossTiles(Cells(), Pos(emptyTile.row, emptyTile.col));
      var idx := DrawIndex(u, |board|);
      MakeMove(if idx < |tiles| then tiles[idx] else -1);
    }

    /** setIntervalTimes(tick, 25, times, enableBoard): the tick that brings
        the counter to `times` calls enableBoard and clears the interval, so
        there are exactly `times` ticks, then enableBoard runs once. */
    method SetIntervalTimes(times: int, us: seq<real>)
      requires Valid() && !playable && times >= 1 && Draws(us) && |us| >= times
      modifies this, board
      ensures Valid() && playable
      ensures Cells() == Shuffled(old(Cells()), us[..times])
      ensures OnlyCleared(old(Highlights()), Highlights())
    {
      Ticks(times, us);
      EnableBoard();
    }

    /** The interval's ticks, counted as setIntervalTimes counts them: tick k
        uses draw us[k]. The board stays locked (`playable` is not in the frame)
        and the ticks only ever clear highlights. */
    method Ticks(times: int, us: seq<real>)
      requires Valid() && !playable && times >= 1 && Draws(us) && |us| >= times
      modifies board
      ensures Valid()
      ensures Cells() == Shuffled(old(Cells()), us[..times])
      ensures OnlyCleared(old(Highlights()), Highlights())
    {
      ghost var start, flags := Cells(), Highlights();
      var iteration := 0;
      while iteration < times
        invariant 0 <= iteration <= times
        invariant Valid()
        invariant Shuffling(start, flags, us, iteration)
      {
        TickOnce(start, flags, us, iteration);
        iteration := iteration + 1;
      }
    }

    /** The board is where the first k draws take it from `start`, and no tile
        is highlighted that was not highlighted in `flags`. */
    ghost predicate Shuffling(start: seq<Pos>, flags: seq<bool>, us: seq<real>, k: nat)
      reads board
    {
      && |start| > 0 && Draws(us) && k <= |us| && Cells() == Shuffled(start, us[..k])
      && OnlyCleared(flags, Highlights())
    }

    /** Tick number k + 1 of the interval. */
    method TickOnce(ghost start: seq<Pos>, ghost flags: seq<bool>, us: seq<real>, k: nat)
      requires Valid() && !playable && Shuffling(start, flags, us, k) && k < |us|
      modifies board
      ensures Valid() && Shuffling(start, flags, us, k + 1)
      ensures Cells() == ShuffleStep(old(Cells()), us[k])
      ensures Highlights() == Cleared(old(Highlights()), RunOf(old(Cells()), StepTarget(old(Cells()), us[k])))
    {
      ShuffleTick(us[k]);
      ShuffledPrefix(start, us, k);
    }

    /** shuffleBoard: draw `u` fixes the number of ticks, 50 to 149; the
        ticks use the draws `us`. */
    method ShuffleBoard(u: real, us: seq<real>)
      requires Valid() && !playable && 0.0 <= u < 1.0 && Draws(us) && |us| >= IterationCount(u)
      modifies this, board
      ensures Valid() && playable
      ensures Cells() == Shuffled(old(Cells()), us[..IterationCount(u)])
      ensures OnlyCleared(old(Highlights()), Highlights())
    {
      var randomTimes := IterationCount(u);
      SetIntervalTimes(randomTimes, us);
    }

    /** play: the board is locked (ShuffleBoard and the ticks require it), shuffled, then enabled. */
    method Play(u: real, us: seq<real>)
      requires Valid() && 0.0 <= u < 1.0 && Draws(us) && |us| >= IterationCount(u)
      modifies this, board
      ensures Valid() && playable
      ensures Cells() == Shuffled(old(Cells()), us[..IterationCount(u)])
      ensures OnlyCleared(old(Highlights()), Highlights())
    {
      playable := false;
      ShuffleBoard(u, us);
    }

    /** The mouseover handler on the tile whose element id is `id`. */
    method OnMouseOver(id: int)
      requires Valid()
      modifies board
      ensures Valid() && Cells() == old(Cells())
      ensures Highlights() ==
        if playable then Marked(old(Highlights()), RunOf(old(Cells()), id - 1)) else old(Highlights())
    {
      if !playable {
        return;
      }
      HighlightNeighbors(id - 1);
    }

    /** The mouseout handler. */
    method OnMouseOut()
      requires Valid()
      modifies board
      ensures Valid() && Cells() == old(Cells())
      ensures playable ==> forall i :: 0 <= i < |board| ==> !Highlights()[i]
      ensures !playable ==> Highlights() == old(Highlights())
    {
      if !playable {
        return;
      }
      ResetBoard();
    }

    /** The click handler on the tile whose element id is `id`. */
    method OnClick(id: int)
      requires Valid()
      modifies board
      ensures Valid()
      ensures Cells() == if playable then Moves.MakeMove(old(Cells()), id - 1) else old(Cells())
      ensures Highlights() ==
        if playable then Cleared(old(Highlights()), RunOf(old(Cells()), id - 1)) else old(Highlights())
    {
      if !playable {
        return;
      }
      MakeMove(id - 1);
    }

    /** The loop of makeMove: every tile of `run` steps by `d` and is
        deselected; the other tiles keep their cell and highlight. */
    method SlideRun(run: seq<nat>, d: Delta)
      requires forall i, j :: 0 <= i < j < |board| ==> board[i] != board[j]
      requires forall i :: i in run ==> i < |board|
      requires forall k, l :: 0 <= k < l < |run| ==> run[k] < run[l]
      modifies board
      ensures Cells() == Slide(old(Cells()), run, d)
      ensures Highlights() == Cleared(old(Highlights()), run)
    {
      ghost var cells0, flags0 := Cells(), Highlights();
      var k := 0;
      while k < |run|
        invariant 0 <= k <= |run|
        invariant forall i :: 0 <= i < |board| ==>
          Pos(board[i].row, board[i].col) == if i in run[..k] then Shift(cells0[i], d) else cells0[i]
        invariant forall i :: 0 <= i < |board| ==> board[i].highlighted == (flags0[i] && i !in run[..k])
      {
        assert run[k] in run;
        var t := board[run[k]];
        assert run[k] !in run[..k];
        assert run[..k + 1] == run[..k] + [run[k]];
        t.UpdatePos(t.col + d.x, t.row + d.y);
        t.Deselect();
        k := k + 1;
      }
      assert run[..k] == run;
      ghost var cells, flags := Cells(), Highlights();
      forall i | 0 <= i < |board| ensures cells[i] == Slide(cells0, run, d)[i] {
      }
      forall i | 0 <= i < |board| ensures flags[i] == Cleared(flags0, run)[i] {
      }
    }

    /** The last step of makeMove: the blank's new cell; no other tile moves and
        no highlight changes. */
    method MoveBlank(row: int, col: int)
      requires |board| >= 1 && emptyTile == board[|board| - 1]
      requires forall i, j :: 0 <= i < j < |board| ==> board[i] != board[j]
      modifies emptyTile
      ensures Cells() == old(Cells())[|board| - 1 := Pos(row, col)]
      ensures Highlights() == old(Highlights())
    {
      ghost var cells0, flags0 := Cells(), Highlights();
      emptyTile.UpdatePos(col, row);
      ghost var cells, flags := Cells(), Highlights();
      forall i | 0 <= i < |board| ensures cells[i] == cells0[|board| - 1 := Pos(row, col)][i] && flags[i] == flags0[i] {
        if i < |board| - 1 {
          assert board[i] != emptyTile;
        }
      }
    }
  }
}
