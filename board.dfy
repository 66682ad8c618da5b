/**
 * The Weiqi board: an array of occupations that move, killIfDead, hasBreath
 * and findGroup update in place, each proved against the rules in BoardRules.
 */
module Boards {
  import opened Wrappers
  import opened Weiqi
  import opened BoardRules

  class Board {
    /** The board's storage; Board extends Array<Occupation> in the source. */
    const grid: Array<Occupation>

    ghost predicate Valid()
      reads this, grid
    {
      grid.Valid()
    }

    /** The board's contents. */
    ghost function Cells(): Cells
      reads this, grid, grid.positions
    {
      grid.positions[..]
    }

    /** new Board(): every point of the board is EMPTY. */
    constructor (dims: Dims)
      requires dims.Valid()
      ensures Valid() && grid.dims == dims && fresh(grid) && fresh(grid.positions)
      ensures forall c :: InBoard(c, dims) ==> grid.Get(c) == Some(EMPTY)
    {
      var g := new Array<Occupation>(dims);
      var x := 0;
      while x < dims.size
        invariant 0 <= x <= dims.size
        invariant forall c :: InBoard(c, dims) && c.x < x ==> g.Get(c) == Some(EMPTY)
      {
        var y := 0;
        while y < dims.size
          invariant 0 <= y <= dims.size
          invariant forall c :: InBoard(c, dims) && (c.x < x || (c.x == x && c.y < y)) ==> g.Get(c) == Some(EMPTY)
        {
          g.Set(Coordinate(x, y), Some(EMPTY));
          y := y + 1;
        }
        x := x + 1;
      }
      grid := g;
    }

    /** new Board(board): a copy with its own storage. */
    constructor Copy(board: Board)
      requires board.Valid()
      ensures Valid() && grid.dims == board.grid.dims && fresh(grid) && fresh(grid.positions)
      ensures Cells() == board.Cells()
    {
      grid := new Array.Copy(board.grid);
    }

    /**
     * hasBreath(c, player): marks each stone of player it visits with null so
     * it is not counted twice, and puts it back before returning.
     */
    method HasBreath(c: Coordinate, player: Occupation) returns (r: bool)
      requires Valid()
      modifies grid.positions
      ensures Cells() == old(Cells())
      ensures r == Breathes(old(Cells()), grid.dims, c, player)
      decreases Holding(Cells(), Some(player)), 0
    {
      if InBoard(c, grid.dims) {
        var current := grid.Get(c);
        if current == Some(player) {
          ghost var cells := Cells();
          HoldingMark(cells, grid.dims, c, player);
          grid.Set(c, None);
          ghost var marked := Cells();
          var ns := Neighbours(c);
          r := false;
          var i := 0;
          while i < 4 && !r
            invariant 0 <= i <= 4
            invariant Cells() == marked
            invariant AnyBreathes(marked, grid.dims, ns, player) == (r || AnyBreathes(marked, grid.dims, ns[i..], player))
          {
            assert ns[i..][1..] == ns[i + 1..];
            r := HasBreath(ns[i], player);
            i := i + 1;
          }
          grid.Set(c, current);
          assert Cells() == cells;
        } else {
          r := current == Some(EMPTY);
        }
      } else {
        r := false;
      }
    }

    /**
     * findGroup(c, color, group): adds to group the points of color reachable
     * from c that are not in it yet.
     */
    method FindGroupFrom(c: Coordinate, color: Option<Occupation>, group: set<Coordinate>) returns (r: set<Coordinate>)
      requires Valid() && group <= AllCoords(grid.dims)
      ensures group <= r <= AllCoords(grid.dims)
      ensures InBoard(c, grid.dims) && grid.Get(c) == color ==> c in r
      ensures forall b :: b in r - group ==> Reaches(Cells(), grid.dims, c, b, color)
      ensures forall b :: b in r - group ==> ClosedAt(Cells(), grid.dims, b, color, r)
      decreases AllCoords(grid.dims) - group
    {
      r := group;
      AllCoordsInBoard(grid.dims, c);
      if InBoard(c, grid.dims) && grid.Get(c) == color && c !in group {
        r := group + {c};
        assert IsPath(Cells(), grid.dims, [c], color);
        var ns := Neighbours(c);
        for k := 0 to 4
          invariant group + {c} <= r <= AllCoords(grid.dims)
          invariant forall b :: b in r - group ==> Reaches(Cells(), grid.dims, c, b, color)
          invariant forall b :: b in r - (group + {c}) ==> ClosedAt(Cells(), grid.dims, b, color, r)
          invariant forall j :: 0 <= j < k && InBoard(ns[j], grid.dims) && grid.Get(ns[j]) == color ==> ns[j] in r
        {
          ghost var before := r;
          r := FindGroupFrom(ns[k], color, r);
          ReachesThrough(Cells(), grid.dims, c, ns[k], r - before, color);
          ClosedGrows(Cells(), grid.dims, before - (group + {c}), color, before, r);
        }
      }
    }

    /** findGroup(c): the group of c. */
    method FindGroup(c: Coordinate) returns (r: set<Coordinate>)
      requires Valid() && InBoard(c, grid.dims)
      ensures r == Group(Cells(), grid.dims, c)
    {
      r := FindGroupFrom(c, grid.Get(c), {});
      ClosedHoldsGroup(Cells(), grid.dims, c, r);
    }

    /** killIfDead(c): empties c's group when hasBreath finds no liberty for it,
      * and says whether it did. */
    method KillIfDead(c: Coordinate) returns (isKilled: bool)
      requires Valid() && InBoard(c, grid.dims) && grid.Get(c) != None
      modifies grid.positions
      ensures isKilled == Dead(old(Cells()), grid.dims, c)
      ensures Cells() == Killed(old(Cells()), grid.dims, c)
    {
      ghost var cells := Cells();
      var alive := HasBreath(c, grid.Get(c).value);
      isKilled := !alive;
      if isKilled {
        var group := FindGroup(c);
        assert group == Group(cells, grid.dims, c);
        var rest := group;
        ClearedNone(cells, grid.dims);
        assert group - rest == {};
        while rest != {}
          invariant rest <= group
          invariant Cells() == Cleared(cells, grid.dims, group - rest)
          decreases rest
        {
          var b :| b in rest;
          AllCoordsInBoard(grid.dims, b);
          ClearedAdd(cells, grid.dims, group - rest, b);
          grid.Set(b, Some(EMPTY));
          assert group - (rest - {b}) == (group - rest) + {b};
          rest := rest - {b};
        }
        assert group - rest == group;
        assert Cells() == Cleared(cells, grid.dims, Group(cells, grid.dims, c));
      }
    }

    /**
     * move(c, player). Occupied and Suicide stand for the two exceptions the
     * source throws; the board is left as the exception finds it.
     */
    method Move(c: Coordinate, player: Occupation) returns (outcome: MoveOutcome)
      requires Valid() && InBoard(c, grid.dims)
      modifies grid.positions
      ensures (outcome, Cells()) == MoveSpec(old(Cells()), grid.dims, c, player)
    {
      ghost var cells := Cells();
      var current := grid.Get(c);
      var opponent := player.Opponent();
      if current == Some(EMPTY) {
        grid.Set(c, Some(player));
        ghost var placed := Cells();
        var ns := Neighbours(c);
        for k := 0 to 4
          invariant Captures(placed, grid.dims, ns, opponent) == Captures(Cells(), grid.dims, ns[k..], opponent)
        {
          assert ns[k..][1..] == ns[k + 1..];
          var n := ns[k];
          if InBoard(n, grid.dims) && grid.Get(n) == Some(opponent) {
            var _ := KillIfDead(n);
          }
        }
        assert Cells() == AfterCaptures(cells, grid.dims, c, player);
        var suicide := KillIfDead(c);
        if suicide {
          grid.Set(c, Some(player));
          var _ := KillIfDead(c);
          outcome := Suicide;
        } else {
          outcome := Moved;
        }
      } else {
        outcome := Occupied;
      }
    }
  }
}
