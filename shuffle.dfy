/** The shuffle of scripts/puzzle.js (shuffleBoard) as functions of the layout.
    Math.random is not modelled: each draw is a parameter u in [0, 1). */
module Shuffle {
  import opened Geometry
  import opened Counting
  import opened Moves

  /** The filter of a shuffle step: on the blank's column or row, not the blank's cell. */
  predicate InCross(blank: Pos, p: Pos)
  {
    (p.col == blank.col || p.row == blank.row) && (p.col != blank.col || p.row != blank.row)
  }

  /** The `tiles` of a shuffle step: board indices, in board order, of the cross of the blank. */
  function CrossTiles(cells: seq<Pos>, blank: Pos): (tiles: seq<nat>)
    ensures forall i :: i in tiles <==> 0 <= i < |cells| && InCross(blank, cells[i])
    ensures forall a, b :: 0 <= a < b < |tiles| ==> tiles[a] < tiles[b]
  {
    IndicesWhere(cells, p => InCross(blank, p))
  }

  /** `50 + Math.floor(100 * Math.random())` for the draw u. */
  function IterationCount(u: real): (times: int)
    requires 0.0 <= u < 1.0
    ensures 50 <= times <= 149
  {
    50 + (100.0 * u).Floor
  }

  /** `Math.floor(Math.random() * board.length)` for the draw u. */
  function DrawIndex(u: real, n: nat): (idx: int)
    requires 0.0 <= u < 1.0 && n >= 1
    ensures 0 <= idx < n
  {
    (u * n as real).Floor
  }

  /** The move a shuffle step makes: `tiles[idx]`, the drawn tile of the blank's
      cross, or undefined (-1) when the index falls past the end of `tiles`. */
  function StepTarget(cells: seq<Pos>, u: real): (t: int)
    requires |cells| > 0 && 0.0 <= u < 1.0
    ensures t == -1 || (0 <= t < |cells| && InCross(cells[|cells| - 1], cells[t]))
  {
    var tiles := CrossTiles(cells, cells[|cells| - 1]);
    var idx := DrawIndex(u, |cells|);
    if idx < |tiles| then assert tiles[idx] in tiles; tiles[idx] else -1
  }

  /** One tick of the shuffle: `makeMove(tiles[idx])`. Only tiles on the
      blank's row or column can move. */
  function ShuffleStep(cells: seq<Pos>, u: real): (r: seq<Pos>)
    requires |cells| > 0 && 0.0 <= u < 1.0
    ensures |r| == |cells|
    ensures forall i :: 0 <= i < |cells| - 1 && !InCross(cells[|cells| - 1], cells[i]) ==> r[i] == cells[i]
  {
    MakeMove(cells, StepTarget(cells, u))
  }

  predicate Draws(us: seq<real>)
  {
    forall k :: 0 <= k < |us| ==> 0.0 <= us[k] < 1.0
  }

  /** The board after one shuffle step per draw, in order. */
  function Shuffled(cells: seq<Pos>, us: seq<real>): (r: seq<Pos>)
    requires |cells| > 0 && Draws(us)
    ensures |r| == |cells|
    decreases |us|
  {
    if us == [] then cells else Shuffled(ShuffleStep(cells, us[0]), us[1..])
  }

  /** The board after the player's clicks `targets`, in order. */
  function Replay(cells: seq<Pos>, targets: seq<int>): (r: seq<Pos>)
    requires |cells| > 0
    ensures |r| == |cells|
    decreases |targets|
  {
    if targets == [] then cells
    else MakeMove(Replay(cells, targets[..|targets| - 1]), targets[|targets| - 1])
  }

  // ---------------------------------------------------------------------------
  // The cross of the blank

  /** Numbers the cross: row-mates 0 .. size-2 by column, column-mates
      size-1 .. 2*size-3 by row, skipping the blank's own line. */
  function CrossRank(size: nat, blank: Pos, p: Pos): int
  {
    if p.row == blank.row then (if p.col < blank.col then p.col else p.col - 1)
    else size - 1 + (if p.row < blank.row then p.row else p.row - 1)
  }

  /** The cell of rank k in the cross of the blank. */
  function CrossCell(size: nat, blank: Pos, k: int): Pos
  {
    if k < size - 1 then Pos(blank.row, if k < blank.col then k else k + 1)
    else Pos(if k - (size - 1) < blank.row then k - (size - 1) else k - (size - 1) + 1, blank.col)
  }

  function CrossSet(cells: seq<Pos>, blank: Pos): set<int>
  {
    set i: int | i in CrossTiles(cells, blank)
  }

  function Ranks(size: nat): set<int>
    requires size >= 1
  {
    var ks := Interval(0, 2 * (size - 1));
    set k: int | k in ks
  }

  function RankOf(size: nat, cells: seq<Pos>, blank: Pos, i: int): int
  {
    if 0 <= i < |cells| then CrossRank(size, blank, cells[i]) else 0
  }

  lemma CrossRankRange(size: nat, blank: Pos, p: Pos)
    requires InGrid(size, blank) && InGrid(size, p) && InCross(blank, p)
    ensures 0 <= CrossRank(size, blank, p) < 2 * (size - 1)
    ensures CrossCell(size, blank, CrossRank(size, blank, p)) == p
  {
  }

  lemma CrossCellOnCross(size: nat, blank: Pos, k: int)
    requires InGrid(size, blank) && 0 <= k < 2 * (size - 1)
    ensures InGrid(size, CrossCell(size, blank, k)) && InCross(blank, CrossCell(size, blank, k))
    ensures CrossRank(size, blank, CrossCell(size, blank, k)) == k
  {
  }

  lemma CrossSetCard(cells: seq<Pos>, blank: Pos)
    ensures |CrossSet(cells, blank)| == |CrossTiles(cells, blank)|
  {
    var indices: seq<int> := CrossTiles(cells, blank);
    DistinctCard(indices);
  }

  lemma RanksCard(size: nat)
    requires size >= 1
    ensures |Ranks(size)| == 2 * (size - 1)
  {
    DistinctCard(Interval(0, 2 * (size - 1)));
  }

  lemma CrossIntoRanks(size: nat, cells: seq<Pos>, blank: Pos)
    requires IsGrid(size, cells) && InGrid(size, blank) && size >= 1
    ensures forall a :: a in CrossSet(cells, blank) ==> RankOf(size, cells, blank, a) in Ranks(size)
  {
    forall a | a in CrossSet(cells, blank) ensures RankOf(size, cells, blank, a) in Ranks(size) {
      CrossRankRange(size, blank, cells[a]);
    }
  }

  lemma CrossOneToOne(size: nat, cells: seq<Pos>, blank: Pos)
    requires IsGrid(size, cells) && InGrid(size, blank)
    ensures forall a, a' ::
      (a in CrossSet(cells, blank) && a' in CrossSet(cells, blank) &&
       RankOf(size, cells, blank, a) == RankOf(size, cells, blank, a')) ==> a == a'
  {
    forall a, a' | a in CrossSet(cells, blank) && a' in CrossSet(cells, blank) &&
      RankOf(size, cells, blank, a) == RankOf(size, cells, blank, a')
      ensures a == a'
    {
      CrossRankRange(size, blank, cells[a]);
      CrossRankRange(size, blank, cells[a']);
      assert cells[a] == cells[a'];
    }
  }

  lemma CrossOntoRanks(size: nat, cells: seq<Pos>, blank: Pos)
    requires IsGrid(size, cells) && InGrid(size, blank) && size >= 1
    ensures forall b :: b in Ranks(size) ==>
      exists a :: a in CrossSet(cells, blank) && RankOf(size, cells, blank, a) == b
  {
    forall b | b in Ranks(size)
      ensures exists a :: a in CrossSet(cells, blank) && RankOf(size, cells, blank, a) == b
    {
      var p := CrossCell(size, blank, b);
      CrossCellOnCross(size, blank, b);
      assert Occupied(cells, p);
      var i :| 0 <= i < |cells| && cells[i] == p;
      assert i in CrossSet(cells, blank);
    }
  }

  /** On a well-formed board the cross of the blank holds 2 * (size - 1) tiles:
      size - 1 on its row and size - 1 on its column. */
  lemma {:induction false} CrossSize(size: nat, cells: seq<Pos>)
    requires IsGrid(size, cells) && size >= 1
    ensures |CrossTiles(cells, cells[|cells| - 1])| == 2 * (size - 1)
  {
    var blank := cells[|cells| - 1];
    CrossSetCard(cells, blank);
    RanksCard(size);
    CrossIntoRanks(size, cells, blank);
    CrossOneToOne(size, cells, blank);
    CrossOntoRanks(size, cells, blank);
    BijectionCard(CrossSet(cells, blank), Ranks(size), i => RankOf(size, cells, blank, i));
  }

  /** Every tile of the cross is a slide target. */
  lemma CrossAreSlides(size: nat, cells: seq<Pos>)
    requires IsGrid(size, cells) && size >= 1
    ensures forall j :: j in CrossTiles(cells, cells[|cells| - 1]) ==> IsSlide(cells, j)
  {
  }

  // ---------------------------------------------------------------------------
  // Steps

  /** A tick's target is a legal slide exactly when the drawn index falls inside the cross. */
  lemma StepTargetIsSlide(size: nat, cells: seq<Pos>, u: real)
    requires IsGrid(size, cells) && size >= 1 && 0.0 <= u < 1.0
    ensures IsSlide(cells, StepTarget(cells, u)) <==> DrawIndex(u, |cells|) < 2 * (size - 1)
  {
    var tiles := CrossTiles(cells, cells[|cells| - 1]);
    var idx := DrawIndex(u, |cells|);
    CrossSize(size, cells);
    if idx < |tiles| {
      CrossAreSlides(size, cells);
      assert tiles[idx] in tiles;
    }
  }

  /** A shuffle step leaves the board alone exactly when its index falls past
      the cross; otherwise it is a slide. Either way the board stays well formed. */
  lemma {:induction false} StepOutcome(size: nat, cells: seq<Pos>, u: real)
    requires IsGrid(size, cells) && size >= 1 && 0.0 <= u < 1.0
    ensures ShuffleStep(cells, u) == cells <==> DrawIndex(u, |cells|) >= 2 * (size - 1)
    ensures IsGrid(size, ShuffleStep(cells, u))
  {
    StepTargetIsSlide(size, cells, u);
    MoveChangesIffSlide(size, cells, StepTarget(cells, u));
    MoveKeepsGrid(size, cells, StepTarget(cells, u));
  }

  /** Every shuffled board is well formed. */
  lemma {:induction false} ShuffledGrid(size: nat, cells: seq<Pos>, us: seq<real>)
    requires IsGrid(size, cells) && size >= 1 && Draws(us)
    ensures IsGrid(size, Shuffled(cells, us))
    decreases |us|
  {
    if us != [] {
      StepOutcome(size, cells, us[0]);
      ShuffledGrid(size, ShuffleStep(cells, us[0]), us[1..]);
    }
  }

  lemma ReplaySnoc(cells: seq<Pos>, targets: seq<int>, t: int)
    requires |cells| > 0
    ensures Replay(cells, targets + [t]) == MakeMove(Replay(cells, targets), t)
  {
    assert (targets + [t])[..|targets|] == targets;
  }

  /** A shuffled board can always be solved back: for every run of draws there are
      clicks that return the board to where the shuffle started. */
  lemma {:induction false} Solvable(size: nat, cells: seq<Pos>, us: seq<real>) returns (clicks: seq<int>)
    requires IsGrid(size, cells) && size >= 1 && Draws(us)
    ensures Replay(Shuffled(cells, us), clicks) == cells
    decreases |us|
  {
    if us == [] {
      clicks := [];
    } else {
      var next := ShuffleStep(cells, us[0]);
      StepOutcome(size, cells, us[0]);
      var rest := Solvable(size, next, us[1..]);
      assert Shuffled(cells, us) == Shuffled(next, us[1..]);
      if next == cells {
        clicks := rest;
      } else {
        var back := UndoClick(size, cells, us[0]);
        ReplaySnoc(Shuffled(next, us[1..]), rest, back);
        clicks := rest + [back];
      }
    }
  }

  /** The click that undoes a shuffle step that moved something. */
  lemma UndoClick(size: nat, cells: seq<Pos>, u: real) returns (back: int)
    requires IsGrid(size, cells) && size >= 1 && 0.0 <= u < 1.0
    requires ShuffleStep(cells, u) != cells
    ensures MakeMove(ShuffleStep(cells, u), back) == cells
  {
    var target := StepTarget(cells, u);
    StepTargetIsSlide(size, cells, u);
    MoveChangesIffSlide(size, cells, target);
    MoveKeepsGrid(size, cells, target);
    var next := MakeMove(cells, target);
    assert InGrid(size, cells[|cells| - 1]) && Occupied(next, cells[|cells| - 1]);
    back :| 0 <= back < |next| && next[back] == cells[|cells| - 1];
    SlideUndo(size, cells, target, back);
  }

  /** Shuffling with one more draw is one more step at the end. */
  lemma {:induction false} ShuffledSnoc(cells: seq<Pos>, us: seq<real>, u: real)
    requires |cells| > 0 && Draws(us) && 0.0 <= u < 1.0
    ensures Draws(us + [u])
    ensures Shuffled(cells, us + [u]) == ShuffleStep(Shuffled(cells, us), u)
    decreases |us|
  {
    if us != [] {
      assert (us + [u])[1..] == us[1..] + [u];
      ShuffledSnoc(ShuffleStep(cells, us[0]), us[1..], u);
    }
  }

  /** The first k + 1 draws shuffle as the first k, then one step more. */
  lemma ShuffledPrefix(cells: seq<Pos>, us: seq<real>, k: nat)
    requires |cells| > 0 && Draws(us) && k < |us|
    ensures Draws(us[..k]) && Draws(us[..k + 1])
    ensures Shuffled(cells, us[..k + 1]) == ShuffleStep(Shuffled(cells, us[..k]), us[k])
  {
    SliceSnoc(us, k);
    ShuffledSnoc(cells, us[..k], us[k]);
  }

  lemma SliceSnoc(us: seq<real>, k: nat)
    requires k < |us|
    ensures us[..k + 1] == us[..k] + [us[k]]
  {
  }
}
