/**
 * The rules of the Weiqi board, stated on the contents of its array: what
 * a point holds, same-coloured paths and groups, liberties, the marked
 * liberty search hasBreath performs, captures and a whole move.
 */
module BoardRules {
  import opened Wrappers
  import opened Weiqi

  /** The slots of a board array; None is a null slot. */
  type Cells = seq<Option<Occupation>>

  predicate Sized(cells: Cells, d: Dims)
  {
    d.Valid() && |cells| == d.Length()
  }

  /** get(c). */
  function At(cells: Cells, d: Dims, c: Coordinate): Option<Occupation>
    requires Sized(cells, d) && InBoard(c, d)
  {
    cells[Position(c, d)]
  }

  /** set(c, v). */
  function Put(cells: Cells, d: Dims, c: Coordinate, v: Option<Occupation>): (r: Cells)
    requires Sized(cells, d) && InBoard(c, d)
    ensures Sized(r, d)
  {
    cells[Position(c, d) := v]
  }

  /** Setting c changes what c holds and nothing else. */
  lemma AtPut(cells: Cells, d: Dims, c: Coordinate, v: Option<Occupation>)
    requires Sized(cells, d) && InBoard(c, d)
    ensures forall e :: InBoard(e, d) ==> At(Put(cells, d, c, v), d, e) == if e == c then v else At(cells, d, e)
  {
    forall e | InBoard(e, d)
      ensures At(Put(cells, d, c, v), d, e) == if e == c then v else At(cells, d, e)
    {
      PositionInjective(c, e, d);
    }
  }

  /** Every point on the board holds an occupation (no null slot). */
  ghost predicate Filled(cells: Cells, d: Dims)
    requires Sized(cells, d)
  {
    forall c :: InBoard(c, d) ==> At(cells, d, c) != None
  }

  // Paths and groups.

  /** p is a walk along adjacent points of the board, all holding colour. */
  ghost predicate IsPath(cells: Cells, d: Dims, p: seq<Coordinate>, colour: Option<Occupation>)
    requires Sized(cells, d)
  {
    && |p| >= 1
    && (forall i :: 0 <= i < |p| ==> InBoard(p[i], d))
    && (forall i :: 0 <= i < |p| ==> At(cells, d, p[i]) == colour)
    && (forall i :: 0 <= i < |p| - 1 ==> Adjacent(p[i], p[i + 1]))
  }

  /** b can be reached from a through points holding colour. */
  ghost predicate Reaches(cells: Cells, d: Dims, a: Coordinate, b: Coordinate, colour: Option<Occupation>)
    requires Sized(cells, d)
  {
    exists p :: IsPath(cells, d, p, colour) && p[0] == a && p[|p| - 1] == b
  }

  /** The group of c: the points of c's colour connected to c. */
  ghost function Group(cells: Cells, d: Dims, c: Coordinate): set<Coordinate>
    requires Sized(cells, d) && InBoard(c, d)
  {
    set b | b in AllCoords(d) && Reaches(cells, d, c, b, At(cells, d, c))
  }

  /** Every member of a group holds the group's colour, and c is a member. */
  lemma GroupColour(cells: Cells, d: Dims, c: Coordinate)
    requires Sized(cells, d) && InBoard(c, d)
    ensures c in Group(cells, d, c)
    ensures forall b :: b in Group(cells, d, c) ==> InBoard(b, d) && At(cells, d, b) == At(cells, d, c)
  {
    assert IsPath(cells, d, [c], At(cells, d, c));
    AllCoordsInBoard(d, c);
    forall b | b in Group(cells, d, c)
      ensures InBoard(b, d) && At(cells, d, b) == At(cells, d, c)
    {
      var p :| IsPath(cells, d, p, At(cells, d, c)) && p[0] == c && p[|p| - 1] == b;
      assert InBoard(p[|p| - 1], d);
    }
  }

  /** A path can be extended at the front by an adjacent point of its colour. */
  lemma PrependReach(cells: Cells, d: Dims, c: Coordinate, n: Coordinate, b: Coordinate, colour: Option<Occupation>)
    requires Sized(cells, d) && InBoard(c, d) && At(cells, d, c) == colour && Adjacent(c, n)
    requires Reaches(cells, d, n, b, colour)
    ensures Reaches(cells, d, c, b, colour)
  {
    var q :| IsPath(cells, d, q, colour) && q[0] == n && q[|q| - 1] == b;
    assert InBoard(q[0], d) && At(cells, d, q[0]) == colour;
    assert IsPath(cells, d, [c, n], colour);
    ReachesJoin(cells, d, c, n, b, colour);
  }

  /** Whatever an adjacent point of c's colour reaches, c reaches too. */
  lemma ReachesThrough(cells: Cells, d: Dims, c: Coordinate, n: Coordinate, S: set<Coordinate>, colour: Option<Occupation>)
    requires Sized(cells, d) && InBoard(c, d) && At(cells, d, c) == colour && Adjacent(c, n)
    requires forall b :: b in S ==> Reaches(cells, d, n, b, colour)
    ensures forall b :: b in S ==> Reaches(cells, d, c, b, colour)
  {
    forall b | b in S
      ensures Reaches(cells, d, c, b, colour)
    {
      PrependReach(cells, d, c, n, b, colour);
    }
  }

  /** The neighbours of b that are on the board and hold colour all lie in r. */
  predicate ClosedAt(cells: Cells, d: Dims, b: Coordinate, colour: Option<Occupation>, r: set<Coordinate>)
    requires Sized(cells, d)
  {
    forall k :: 0 <= k < 4 && InBoard(Neighbours(b)[k], d) && At(cells, d, Neighbours(b)[k]) == colour ==>
      Neighbours(b)[k] in r
  }

  /** Closure survives adding points to the set. */
  lemma ClosedGrows(cells: Cells, d: Dims, S: set<Coordinate>, colour: Option<Occupation>, r1: set<Coordinate>, r2: set<Coordinate>)
    requires Sized(cells, d) && r1 <= r2
    requires forall b :: b in S ==> ClosedAt(cells, d, b, colour, r1)
    ensures forall b :: b in S ==> ClosedAt(cells, d, b, colour, r2)
  {
  }

  /** A set holding c and closed under same-coloured neighbours holds c's whole group. */
  lemma ClosedHoldsGroup(cells: Cells, d: Dims, c: Coordinate, r: set<Coordinate>)
    requires Sized(cells, d) && InBoard(c, d) && c in r
    requires forall b :: b in r ==> ClosedAt(cells, d, b, At(cells, d, c), r)
    ensures Group(cells, d, c) <= r
  {
    forall b | b in Group(cells, d, c)
      ensures b in r
    {
      var p :| IsPath(cells, d, p, At(cells, d, c)) && p[0] == c && p[|p| - 1] == b;
      PathInClosed(cells, d, p, At(cells, d, c), r, |p| - 1);
    }
  }

  lemma {:induction false} PathInClosed(cells: Cells, d: Dims, p: seq<Coordinate>, colour: Option<Occupation>,
                                        r: set<Coordinate>, i: nat)
    requires Sized(cells, d) && IsPath(cells, d, p, colour) && p[0] in r && i < |p|
    requires forall b :: b in r ==> ClosedAt(cells, d, b, colour, r)
    ensures p[i] in r
  {
    if i > 0 {
      PathInClosed(cells, d, p, colour, r, i - 1);
      assert Adjacent(p[i - 1], p[i]);
      var k :| 0 <= k < 4 && Neighbours(p[i - 1])[k] == p[i];
      assert ClosedAt(cells, d, p[i - 1], colour, r);
    }
  }

  // Liberties.

  /** p walks from its first point through stones of player to an EMPTY point. */
  ghost predicate BreathPath(cells: Cells, d: Dims, p: seq<Coordinate>, player: Occupation)
    requires Sized(cells, d)
  {
    && |p| >= 1
    && (forall i :: 0 <= i < |p| ==> InBoard(p[i], d))
    && (forall i :: 0 <= i < |p| - 1 ==> At(cells, d, p[i]) == Some(player))
    && At(cells, d, p[|p| - 1]) == Some(EMPTY)
    && (forall i :: 0 <= i < |p| - 1 ==> Adjacent(p[i], p[i + 1]))
  }

  /** An EMPTY point can be reached from c through stones of player. */
  ghost predicate LibertyReachable(cells: Cells, d: Dims, c: Coordinate, player: Occupation)
    requires Sized(cells, d)
  {
    exists p :: BreathPath(cells, d, p, player) && p[0] == c
  }

  /** Some point on the board next to b is EMPTY. */
  predicate Liberty(cells: Cells, d: Dims, b: Coordinate)
    requires Sized(cells, d)
  {
    exists k :: 0 <= k < 4 && InBoard(Neighbours(b)[k], d) && At(cells, d, Neighbours(b)[k]) == Some(EMPTY)
  }

  /** Some stone of c's group has a liberty. */
  ghost predicate GroupHasLiberty(cells: Cells, d: Dims, c: Coordinate)
    requires Sized(cells, d) && InBoard(c, d)
  {
    exists b :: b in Group(cells, d, c) && Liberty(cells, d, b)
  }

  /** The slots holding v. */
  function Holding(cells: Cells, v: Option<Occupation>): set<int>
  {
    set i | 0 <= i < |cells| && cells[i] == v
  }

  /** Marking a stone of player (setting it to null) leaves fewer stones of player. */
  lemma HoldingMark(cells: Cells, d: Dims, c: Coordinate, player: Occupation)
    requires Sized(cells, d) && InBoard(c, d) && At(cells, d, c) == Some(player)
    ensures Holding(Put(cells, d, c, None), Some(player)) < Holding(cells, Some(player))
  {
    var pos := Position(c, d);
    assert pos in Holding(cells, Some(player));
    assert pos !in Holding(Put(cells, d, c, None), Some(player));
  }

  /**
   * hasBreath(c, player) on a board: false off the board; on a stone of
   * player, marks it null and asks each neighbour in turn; elsewhere, whether
   * the point is EMPTY.
   */
  function Breathes(cells: Cells, d: Dims, c: Coordinate, player: Occupation): bool
    requires Sized(cells, d)
    decreases Holding(cells, Some(player)), 0
  {
    if !InBoard(c, d) then false
    else if At(cells, d, c) == Some(player) then
      HoldingMark(cells, d, c, player);
      AnyBreathes(Put(cells, d, c, None), d, Neighbours(c), player)
    else At(cells, d, c) == Some(EMPTY)
  }

  /** Whether some coordinate of ns breathes, asked in order. */
  function AnyBreathes(cells: Cells, d: Dims, ns: seq<Coordinate>, player: Occupation): bool
    requires Sized(cells, d)
    decreases Holding(cells, Some(player)), 1, |ns|
  {
    ns != [] && (Breathes(cells, d, ns[0], player) || AnyBreathes(cells, d, ns[1..], player))
  }

  /** hasBreath for EMPTY never finds a liberty: every point it reaches is either
    * EMPTY, so searched further, or not, so not a liberty. */
  lemma {:induction false} BreathesEmpty(cells: Cells, d: Dims, c: Coordinate)
    requires Sized(cells, d)
    ensures !Breathes(cells, d, c, EMPTY)
    decreases Holding(cells, Some(EMPTY)), 0
  {
    if InBoard(c, d) && At(cells, d, c) == Some(EMPTY) {
      HoldingMark(cells, d, c, EMPTY);
      AnyBreathesEmpty(Put(cells, d, c, None), d, Neighbours(c));
    }
  }

  lemma {:induction false} AnyBreathesEmpty(cells: Cells, d: Dims, ns: seq<Coordinate>)
    requires Sized(cells, d)
    ensures !AnyBreathes(cells, d, ns, EMPTY)
    decreases Holding(cells, Some(EMPTY)), 1, |ns|
  {
    if ns != [] {
      BreathesEmpty(cells, d, ns[0]);
      AnyBreathesEmpty(cells, d, ns[1..]);
    }
  }

  /** The last index at which c occurs in p. */
  function LastIndexOf(p: seq<Coordinate>, c: Coordinate): (j: nat)
    requires c in p
    ensures j < |p| && p[j] == c && forall k :: j < k < |p| ==> p[k] != c
  {
    if p[|p| - 1] == c then |p| - 1 else LastIndexOf(p[..|p| - 1], c)
  }

  /** A liberty path from a neighbour of c in the marked board, with c put in
    * front, is a liberty path from c in the unmarked board. */
  lemma MarkedPathExtends(cells: Cells, d: Dims, c: Coordinate, q: seq<Coordinate>, player: Occupation)
    requires Sized(cells, d) && InBoard(c, d) && At(cells, d, c) == Some(player)
    requires BreathPath(Put(cells, d, c, None), d, q, player) && q[0] in Neighbours(c)
    ensures BreathPath(cells, d, [c] + q, player)
  {
    var m := Put(cells, d, c, None);
    AtPut(cells, d, c, None);
    var p := [c] + q;
    assert forall k :: 1 <= k < |p| ==> p[k] == q[k - 1];
    forall k | 0 <= k < |q|
      ensures q[k] != c
    {
      assert At(m, d, q[k]) != None;
    }
  }

  /** The part of a liberty path from c after the last visit of c is a liberty
    * path, in the marked board, from a neighbour of c. */
  lemma PathAfterLastVisit(cells: Cells, d: Dims, c: Coordinate, p: seq<Coordinate>, player: Occupation)
      returns (i: nat)
    requires Sized(cells, d) && InBoard(c, d) && At(cells, d, c) == Some(player) && player != EMPTY
    requires BreathPath(cells, d, p, player) && p[0] == c
    ensures i < 4 && LibertyReachable(Put(cells, d, c, None), d, Neighbours(c)[i], player)
  {
    var m := Put(cells, d, c, None);
    AtPut(cells, d, c, None);
    var j := LastIndexOf(p, c);
    assert j < |p| - 1;
    var q := p[j + 1..];
    assert forall k :: 0 <= k < |q| ==> q[k] == p[j + 1 + k] && q[k] != c;
    assert BreathPath(m, d, q, player);
    assert Adjacent(p[j], p[j + 1]);
    i :| 0 <= i < 4 && Neighbours(c)[i] == q[0];
  }

  /**
   * The marked search is exact: for a player other than EMPTY, hasBreath
   * finds a liberty exactly when an EMPTY point can be reached from c
   * through stones of player (null marks block the way).
   */
  lemma {:induction false} BreathesIffLibertyReachable(cells: Cells, d: Dims, c: Coordinate, player: Occupation)
    requires Sized(cells, d) && player != EMPTY
    ensures Breathes(cells, d, c, player) <==> LibertyReachable(cells, d, c, player)
    decreases Holding(cells, Some(player)), 0
  {
    if !InBoard(c, d) {
      // No path starts off the board.
    } else if At(cells, d, c) == Some(player) {
      var m := Put(cells, d, c, None);
      var ns := Neighbours(c);
      HoldingMark(cells, d, c, player);
      AnyBreathesIff(m, d, ns, player);
      if Breathes(cells, d, c, player) {
        var i :| 0 <= i < |ns| && LibertyReachable(m, d, ns[i], player);
        var q :| BreathPath(m, d, q, player) && q[0] == ns[i];
        MarkedPathExtends(cells, d, c, q, player);
      }
      if LibertyReachable(cells, d, c, player) {
        var p :| BreathPath(cells, d, p, player) && p[0] == c;
        var i := PathAfterLastVisit(cells, d, c, p, player);
      }
    } else {
      if LibertyReachable(cells, d, c, player) {
        var p :| BreathPath(cells, d, p, player) && p[0] == c;
        assert |p| == 1;
      }
      assert At(cells, d, c) == Some(EMPTY) ==> BreathPath(cells, d, [c], player);
    }
  }

  lemma {:induction false} AnyBreathesIff(cells: Cells, d: Dims, ns: seq<Coordinate>, player: Occupation)
    requires Sized(cells, d) && player != EMPTY
    ensures AnyBreathes(cells, d, ns, player) <==>
      exists i :: 0 <= i < |ns| && LibertyReachable(cells, d, ns[i], player)
    decreases Holding(cells, Some(player)), 1, |ns|
  {
    if ns != [] {
      BreathesIffLibertyReachable(cells, d, ns[0], player);
      AnyBreathesIff(cells, d, ns[1..], player);
      assert forall i :: 1 <= i < |ns| ==> ns[i] == ns[1..][i - 1];
    }
  }

  /** The part of a liberty path before its EMPTY end stays in c's group. */
  lemma PathPrefixInGroup(cells: Cells, d: Dims, c: Coordinate, player: Occupation, p: seq<Coordinate>)
    requires Sized(cells, d) && InBoard(c, d) && At(cells, d, c) == Some(player)
    requires BreathPath(cells, d, p, player) && p[0] == c && |p| >= 2
    ensures p[|p| - 2] in Group(cells, d, c)
  {
    var q := p[..|p| - 1];
    assert forall k :: 0 <= k < |q| ==> q[k] == p[k];
    assert IsPath(cells, d, q, Some(player));
    AllCoordsInBoard(d, p[|p| - 2]);
  }

  /** A liberty path from c ends next to a stone of c's group. */
  lemma LibertyOfGroup(cells: Cells, d: Dims, c: Coordinate, player: Occupation, p: seq<Coordinate>)
    requires Sized(cells, d) && InBoard(c, d) && At(cells, d, c) == Some(player) && player != EMPTY
    requires BreathPath(cells, d, p, player) && p[0] == c
    ensures GroupHasLiberty(cells, d, c)
  {
    assert |p| >= 2;
    var b := p[|p| - 2];
    PathPrefixInGroup(cells, d, c, player, p);
    assert Adjacent(b, p[|p| - 1]);
    var k :| 0 <= k < 4 && Neighbours(b)[k] == p[|p| - 1];
    assert Liberty(cells, d, b);
  }

  /** A liberty of a stone of c's group ends a liberty path from c. */
  lemma GroupLibertyPath(cells: Cells, d: Dims, c: Coordinate, player: Occupation, b: Coordinate)
    requires Sized(cells, d) && InBoard(c, d) && At(cells, d, c) == Some(player)
    requires b in Group(cells, d, c) && Liberty(cells, d, b)
    ensures LibertyReachable(cells, d, c, player)
  {
    var q :| IsPath(cells, d, q, Some(player)) && q[0] == c && q[|q| - 1] == b;
    var k :| 0 <= k < 4 && InBoard(Neighbours(b)[k], d) && At(cells, d, Neighbours(b)[k]) == Some(EMPTY);
    var p := q + [Neighbours(b)[k]];
    assert BreathPath(cells, d, p, player);
  }

  /** A stone of player, other than EMPTY, breathes exactly when its group has
    * a liberty. */
  lemma BreathesIffGroupHasLiberty(cells: Cells, d: Dims, c: Coordinate, player: Occupation)
    requires Sized(cells, d) && InBoard(c, d) && At(cells, d, c) == Some(player) && player != EMPTY
    ensures Breathes(cells, d, c, player) <==> GroupHasLiberty(cells, d, c)
  {
    BreathesIffLibertyReachable(cells, d, c, player);
    if LibertyReachable(cells, d, c, player) {
      var p :| BreathPath(cells, d, p, player) && p[0] == c;
      LibertyOfGroup(cells, d, c, player, p);
    }
    if GroupHasLiberty(cells, d, c) {
      var b :| b in Group(cells, d, c) && Liberty(cells, d, b);
      GroupLibertyPath(cells, d, c, player, b);
    }
  }

  // Captures and moves.

  /** The positions of the points of S that lie on the board. */
  function PositionsOf(S: set<Coordinate>, d: Dims): set<int>
    requires d.Valid()
  {
    set b | b in S && InBoard(b, d) :: Position(b, d)
  }

  /** The board after set(b, EMPTY) for every b of S, in any order. */
  function Cleared(cells: Cells, d: Dims, S: set<Coordinate>): (r: Cells)
    requires Sized(cells, d)
    ensures Sized(r, d)
  {
    seq(|cells|, i requires 0 <= i < |cells| => if i in PositionsOf(S, d) then Some(EMPTY) else cells[i])
  }

  /** Clearing S empties the points of S and leaves every other point alone. */
  lemma AtCleared(cells: Cells, d: Dims, S: set<Coordinate>)
    requires Sized(cells, d)
    ensures forall e :: InBoard(e, d) ==> At(Cleared(cells, d, S), d, e) == if e in S then Some(EMPTY) else At(cells, d, e)
  {
    forall e | InBoard(e, d)
      ensures At(Cleared(cells, d, S), d, e) == if e in S then Some(EMPTY) else At(cells, d, e)
    {
      if e in S {
        assert Position(e, d) in PositionsOf(S, d);
      } else if Position(e, d) in PositionsOf(S, d) {
        var b :| b in S && InBoard(b, d) && Position(b, d) == Position(e, d);
        PositionInjective(b, e, d);
      }
    }
  }

  lemma ClearedNone(cells: Cells, d: Dims)
    requires Sized(cells, d)
    ensures Cleared(cells, d, {}) == cells
  {
    assert PositionsOf({}, d) == {};
  }

  /** Emptying one more point extends the cleared set by that point. */
  lemma ClearedAdd(cells: Cells, d: Dims, S: set<Coordinate>, b: Coordinate)
    requires Sized(cells, d) && InBoard(b, d)
    ensures Put(Cleared(cells, d, S), d, b, Some(EMPTY)) == Cleared(cells, d, S + {b})
  {
    assert PositionsOf(S + {b}, d) == PositionsOf(S, d) + {Position(b, d)};
  }

  /** hasBreath(c, get(c)) finds no liberty. */
  predicate Dead(cells: Cells, d: Dims, c: Coordinate)
    requires Sized(cells, d) && InBoard(c, d) && At(cells, d, c) != None
  {
    !Breathes(cells, d, c, At(cells, d, c).value)
  }

  /** The board after killIfDead(c): c's group emptied when it is dead. */
  ghost function Killed(cells: Cells, d: Dims, c: Coordinate): (r: Cells)
    requires Sized(cells, d) && InBoard(c, d) && At(cells, d, c) != None
    ensures Sized(r, d)
  {
    if Dead(cells, d, c) then Cleared(cells, d, Group(cells, d, c)) else cells
  }

  /**
   * killIfDead on a stone: it is dead exactly when its group has no liberty,
   * and then exactly the points of its group become EMPTY; nothing else
   * changes.
   */
  lemma KillIfDeadEffect(cells: Cells, d: Dims, c: Coordinate)
    requires Sized(cells, d) && InBoard(c, d) && At(cells, d, c) != None && At(cells, d, c) != Some(EMPTY)
    ensures Dead(cells, d, c) <==> !GroupHasLiberty(cells, d, c)
    ensures forall e :: InBoard(e, d) ==>
      At(Killed(cells, d, c), d, e) == if Dead(cells, d, c) && e in Group(cells, d, c) then Some(EMPTY) else At(cells, d, e)
  {
    BreathesIffGroupHasLiberty(cells, d, c, At(cells, d, c).value);
    AtCleared(cells, d, Group(cells, d, c));
  }

  /** killIfDead on an EMPTY point empties EMPTY points only: the board keeps its
    * contents. */
  lemma KillIfDeadOnEmpty(cells: Cells, d: Dims, c: Coordinate)
    requires Sized(cells, d) && InBoard(c, d) && At(cells, d, c) == Some(EMPTY)
    ensures Dead(cells, d, c)
    ensures forall e :: InBoard(e, d) ==> At(Killed(cells, d, c), d, e) == At(cells, d, e)
  {
    BreathesEmpty(cells, d, c);
    GroupColour(cells, d, c);
    AtCleared(cells, d, Group(cells, d, c));
  }

  /** The capture step move applies to one neighbour: killIfDead when it holds
    * the opponent. */
  ghost function CaptureAt(cells: Cells, d: Dims, n: Coordinate, opponent: Occupation): (r: Cells)
    requires Sized(cells, d)
    ensures Sized(r, d)
  {
    if InBoard(n, d) && At(cells, d, n) == Some(opponent) then Killed(cells, d, n) else cells
  }

  /** The capture steps for the neighbours ns, in order. */
  ghost function Captures(cells: Cells, d: Dims, ns: seq<Coordinate>, opponent: Occupation): (r: Cells)
    requires Sized(cells, d)
    ensures Sized(r, d)
    decreases |ns|
  {
    if ns == [] then cells
    else
      var next := CaptureAt(cells, d, ns[0], opponent);
      Captures(next, d, ns[1..], opponent)
  }

  /** Capturing the opponent never removes a stone of the player. */
  lemma CaptureKeeps(cells: Cells, d: Dims, n: Coordinate, c: Coordinate, player: Occupation)
    requires Sized(cells, d) && InBoard(c, d) && At(cells, d, c) == Some(player)
    ensures At(CaptureAt(cells, d, n, player.Opponent()), d, c) == Some(player)
  {
    if InBoard(n, d) && At(cells, d, n) == Some(player.Opponent()) {
      GroupColour(cells, d, n);
      AtCleared(cells, d, Group(cells, d, n));
      OpponentInvolution(player);
    }
  }

  lemma {:induction false} CapturesKeep(cells: Cells, d: Dims, ns: seq<Coordinate>, c: Coordinate, player: Occupation)
    requires Sized(cells, d) && InBoard(c, d) && At(cells, d, c) == Some(player)
    ensures At(Captures(cells, d, ns, player.Opponent()), d, c) == Some(player)
    decreases |ns|
  {
    if ns != [] {
      CaptureKeeps(cells, d, ns[0], c, player);
      CapturesKeep(CaptureAt(cells, d, ns[0], player.Opponent()), d, ns[1..], c, player);
    }
  }

  /** How move ends: normally, or by throwing. */
  datatype MoveOutcome = Moved | Occupied | Suicide

  /** The board after placing player at c and capturing around it. */
  ghost function AfterCaptures(cells: Cells, d: Dims, c: Coordinate, player: Occupation): (r: Cells)
    requires Sized(cells, d) && InBoard(c, d)
    ensures Sized(r, d) && At(r, d, c) == Some(player)
  {
    AtPut(cells, d, c, Some(player));
    CapturesKeep(Put(cells, d, c, Some(player)), d, Neighbours(c), c, player);
    Captures(Put(cells, d, c, Some(player)), d, Neighbours(c), player.Opponent())
  }

  /**
   * move(c, player): on a point that is not EMPTY it throws and changes
   * nothing; otherwise it places the stone, kills the opponent's neighbouring
   * dead groups and then checks the stone itself. A dead stone is a suicide:
   * its group is emptied, c is set again and killIfDead runs once more
   * before the exception, and the board is left that way.
   */
  ghost function MoveSpec(cells: Cells, d: Dims, c: Coordinate, player: Occupation): (r: (MoveOutcome, Cells))
    requires Sized(cells, d) && InBoard(c, d)
    ensures Sized(r.1, d)
  {
    if At(cells, d, c) != Some(EMPTY) then (Occupied, cells)
    else
      var captured := AfterCaptures(cells, d, c, player);
      if !Dead(captured, d, c) then (Moved, captured)
      else
        var emptied := Killed(captured, d, c);
        AtPut(emptied, d, c, Some(player));
        (Suicide, Killed(Put(emptied, d, c, Some(player)), d, c))
  }

  /**
   * The outcomes of a move: occupied exactly when c is not EMPTY, and then
   * nothing changes; after a normal move c holds the player; for a player
   * other than EMPTY the move is a suicide exactly when the new stone's group
   * has no liberty once the captures are done; and a move of EMPTY itself is
   * always a suicide.
   */
  lemma MoveOutcomes(cells: Cells, d: Dims, c: Coordinate, player: Occupation)
    requires Sized(cells, d) && InBoard(c, d)
    ensures MoveSpec(cells, d, c, player).0 == Occupied <==> At(cells, d, c) != Some(EMPTY)
    ensures MoveSpec(cells, d, c, player).0 == Occupied ==> MoveSpec(cells, d, c, player).1 == cells
    ensures MoveSpec(cells, d, c, player).0 == Moved ==> At(MoveSpec(cells, d, c, player).1, d, c) == Some(player)
    ensures At(cells, d, c) == Some(EMPTY) && player != EMPTY ==>
      (MoveSpec(cells, d, c, player).0 == Suicide <==> !GroupHasLiberty(AfterCaptures(cells, d, c, player), d, c))
    ensures At(cells, d, c) == Some(EMPTY) && player == EMPTY ==> MoveSpec(cells, d, c, player).0 == Suicide
  {
    if At(cells, d, c) == Some(EMPTY) {
      var captured := AfterCaptures(cells, d, c, player);
      if player != EMPTY {
        BreathesIffGroupHasLiberty(captured, d, c, player);
      } else {
        BreathesEmpty(captured, d, c);
      }
    }
  }

  /** Every step of a move keeps every point of the board occupied. */
  lemma KilledFilled(cells: Cells, d: Dims, c: Coordinate)
    requires Sized(cells, d) && InBoard(c, d) && At(cells, d, c) != None && Filled(cells, d)
    ensures Filled(Killed(cells, d, c), d)
  {
    AtCleared(cells, d, Group(cells, d, c));
  }

  lemma {:induction false} CapturesFilled(cells: Cells, d: Dims, ns: seq<Coordinate>, opponent: Occupation)
    requires Sized(cells, d) && Filled(cells, d)
    ensures Filled(Captures(cells, d, ns, opponent), d)
    decreases |ns|
  {
    if ns != [] {
      if InBoard(ns[0], d) && At(cells, d, ns[0]) == Some(opponent) {
        KilledFilled(cells, d, ns[0]);
      }
      CapturesFilled(CaptureAt(cells, d, ns[0], opponent), d, ns[1..], opponent);
    }
  }

  /** A board with every point occupied stays so after any move. */
  lemma MovePreservesFilled(cells: Cells, d: Dims, c: Coordinate, player: Occupation)
    requires Sized(cells, d) && InBoard(c, d) && Filled(cells, d)
    ensures Filled(MoveSpec(cells, d, c, player).1, d)
  {
    if At(cells, d, c) == Some(EMPTY) {
      AtPut(cells, d, c, Some(player));
      var captured := AfterCaptures(cells, d, c, player);
      CapturesFilled(Put(cells, d, c, Some(player)), d, Neighbours(c), player.Opponent());
      if Dead(captured, d, c) {
        var emptied := Killed(captured, d, c);
        KilledFilled(captured, d, c);
        AtPut(emptied, d, c, Some(player));
        KilledFilled(Put(emptied, d, c, Some(player)), d, c);
      }
    }
  }

  // What the captures of a move remove.

  /** A path read backwards is a path. */
  lemma ReachesBack(cells: Cells, d: Dims, a: Coordinate, b: Coordinate, colour: Option<Occupation>)
    requires Sized(cells, d) && Reaches(cells, d, a, b, colour)
    ensures Reaches(cells, d, b, a, colour)
  {
    var p :| IsPath(cells, d, p, colour) && p[0] == a && p[|p| - 1] == b;
    var q := seq(|p|, i requires 0 <= i < |p| => p[|p| - 1 - i]);
    forall i | 0 <= i < |q| - 1
      ensures Adjacent(q[i], q[i + 1])
    {
      assert Adjacent(p[|p| - 2 - i], p[|p| - 1 - i]);
      AdjacentSymmetric(q[i + 1], q[i]);
    }
    assert IsPath(cells, d, q, colour);
  }

  /** Two paths that meet at b join into one. */
  lemma ReachesJoin(cells: Cells, d: Dims, a: Coordinate, b: Coordinate, e: Coordinate, colour: Option<Occupation>)
    requires Sized(cells, d) && Reaches(cells, d, a, b, colour) && Reaches(cells, d, b, e, colour)
    ensures Reaches(cells, d, a, e, colour)
  {
    var p :| IsPath(cells, d, p, colour) && p[0] == a && p[|p| - 1] == b;
    var q :| IsPath(cells, d, q, colour) && q[0] == b && q[|q| - 1] == e;
    var r := p + q[1..];
    assert forall i :: |p| - 1 <= i < |r| ==> r[i] == q[i - |p| + 1];
    assert forall i :: 0 <= i < |p| ==> r[i] == p[i];
    assert IsPath(cells, d, r, colour);
  }

  /** The points of a path from c lie in c's group. */
  lemma PathInGroup(cells: Cells, d: Dims, p: seq<Coordinate>, i: nat)
    requires Sized(cells, d) && i < |p| && InBoard(p[0], d) && IsPath(cells, d, p, At(cells, d, p[0]))
    ensures p[i] in Group(cells, d, p[0])
  {
    var q := p[..i + 1];
    assert forall k :: 0 <= k < |q| ==> q[k] == p[k];
    assert IsPath(cells, d, q, At(cells, d, p[0]));
    AllCoordsInBoard(d, p[i]);
  }

  /** Every stone of a group has that same group. */
  lemma GroupSame(cells: Cells, d: Dims, n: Coordinate, x: Coordinate)
    requires Sized(cells, d) && InBoard(n, d) && x in Group(cells, d, n)
    ensures InBoard(x, d) && Group(cells, d, x) == Group(cells, d, n)
  {
    GroupColour(cells, d, n);
    var colour := At(cells, d, n);
    ReachesBack(cells, d, n, x, colour);
    forall b | b in Group(cells, d, x)
      ensures b in Group(cells, d, n)
    {
      ReachesJoin(cells, d, n, x, b, colour);
    }
    forall b | b in Group(cells, d, n)
      ensures b in Group(cells, d, x)
    {
      ReachesJoin(cells, d, x, n, b, colour);
    }
  }

  /** Two adjacent points of one colour share a group. */
  lemma AdjacentInGroup(cells: Cells, d: Dims, a: Coordinate, b: Coordinate)
    requires Sized(cells, d) && InBoard(a, d) && InBoard(b, d) && Adjacent(a, b) && At(cells, d, a) == At(cells, d, b)
    ensures b in Group(cells, d, a)
  {
    assert IsPath(cells, d, [a, b], At(cells, d, a));
    AllCoordsInBoard(d, b);
  }

  /** S consists of whole groups of colour. */
  ghost predicate WholeGroups(cells: Cells, d: Dims, S: set<Coordinate>, colour: Occupation)
    requires Sized(cells, d)
  {
    forall x :: x in S ==> InBoard(x, d) && At(cells, d, x) == Some(colour) && Group(cells, d, x) <= S
  }

  /** A group of colour outside S, where S is made of whole groups of colour,
    * neither meets S nor touches it. */
  lemma GroupAvoids(cells: Cells, d: Dims, S: set<Coordinate>, colour: Occupation, n: Coordinate)
    requires Sized(cells, d) && WholeGroups(cells, d, S, colour)
    requires InBoard(n, d) && At(cells, d, n) == Some(colour) && n !in S
    ensures forall x :: x in Group(cells, d, n) ==> x !in S
    ensures forall x, e :: x in Group(cells, d, n) && InBoard(e, d) && Adjacent(x, e) ==> e !in S
  {
    GroupColour(cells, d, n);
    forall x | x in Group(cells, d, n)
      ensures x !in S
    {
      if x in S {
        GroupSame(cells, d, n, x);
      }
    }
    forall x, e | x in Group(cells, d, n) && InBoard(e, d) && Adjacent(x, e)
      ensures e !in S
    {
      if e in S {
        AdjacentSymmetric(x, e);
        AdjacentInGroup(cells, d, e, x);
      }
    }
  }

  /** Emptying whole groups of colour elsewhere leaves the group of n as it was. */
  lemma GroupAfterClearing(cells: Cells, d: Dims, S: set<Coordinate>, colour: Occupation, n: Coordinate)
    requires Sized(cells, d) && colour != EMPTY && WholeGroups(cells, d, S, colour)
    requires InBoard(n, d) && At(cells, d, n) == Some(colour) && n !in S
    ensures Group(Cleared(cells, d, S), d, n) == Group(cells, d, n)
  {
    var m := Cleared(cells, d, S);
    AtCleared(cells, d, S);
    GroupAvoids(cells, d, S, colour, n);
    forall b | b in Group(m, d, n)
      ensures b in Group(cells, d, n)
    {
      var p :| IsPath(m, d, p, Some(colour)) && p[0] == n && p[|p| - 1] == b;
      assert forall i :: 0 <= i < |p| ==> At(m, d, p[i]) == Some(colour);
      assert IsPath(cells, d, p, Some(colour));
    }
    forall b | b in Group(cells, d, n)
      ensures b in Group(m, d, n)
    {
      var p :| IsPath(cells, d, p, Some(colour)) && p[0] == n && p[|p| - 1] == b;
      forall i | 0 <= i < |p|
        ensures At(m, d, p[i]) == Some(colour)
      {
        PathInGroup(cells, d, p, i);
      }
      assert IsPath(m, d, p, Some(colour));
    }
  }

  /** Emptying whole groups of colour elsewhere gives the group of n no new liberty. */
  lemma LibertyAfterClearing(cells: Cells, d: Dims, S: set<Coordinate>, colour: Occupation, n: Coordinate)
    requires Sized(cells, d) && colour != EMPTY && WholeGroups(cells, d, S, colour)
    requires InBoard(n, d) && At(cells, d, n) == Some(colour) && n !in S
    ensures GroupHasLiberty(Cleared(cells, d, S), d, n) <==> GroupHasLiberty(cells, d, n)
  {
    var m := Cleared(cells, d, S);
    AtCleared(cells, d, S);
    GroupAvoids(cells, d, S, colour, n);
    GroupAfterClearing(cells, d, S, colour, n);
    forall b | b in Group(cells, d, n)
      ensures Liberty(m, d, b) <==> Liberty(cells, d, b)
    {
      forall k | 0 <= k < 4 && InBoard(Neighbours(b)[k], d)
        ensures At(m, d, Neighbours(b)[k]) == At(cells, d, Neighbours(b)[k])
      {
        assert Adjacent(b, Neighbours(b)[k]);
      }
    }
  }

  /** Emptying S and then T empties S and T. */
  lemma ClearedTwice(cells: Cells, d: Dims, S: set<Coordinate>, T: set<Coordinate>)
    requires Sized(cells, d)
    ensures Cleared(Cleared(cells, d, S), d, T) == Cleared(cells, d, S + T)
  {
    assert PositionsOf(S + T, d) == PositionsOf(S, d) + PositionsOf(T, d);
  }

  /** Emptying points that are already EMPTY changes nothing. */
  lemma ClearedIdle(cells: Cells, d: Dims, S: set<Coordinate>)
    requires Sized(cells, d)
    requires forall b :: b in S && InBoard(b, d) ==> At(cells, d, b) == Some(EMPTY)
    ensures Cleared(cells, d, S) == cells
  {
    forall i | 0 <= i < |cells|
      ensures Cleared(cells, d, S)[i] == cells[i]
    {
      if i in PositionsOf(S, d) {
        var b :| b in S && InBoard(b, d) && Position(b, d) == i;
      }
    }
  }

  /** The group of n when it holds opponent and has no liberty, else nothing. */
  ghost function DeadGroupAt(cells: Cells, d: Dims, n: Coordinate, opponent: Occupation): set<Coordinate>
    requires Sized(cells, d)
  {
    if InBoard(n, d) && At(cells, d, n) == Some(opponent) && !GroupHasLiberty(cells, d, n) then Group(cells, d, n) else {}
  }

  /** The groups of opponent without liberty that hold a point of ns. */
  ghost function DeadGroups(cells: Cells, d: Dims, ns: seq<Coordinate>, opponent: Occupation): set<Coordinate>
    requires Sized(cells, d)
    decreases |ns|
  {
    if ns == [] then {} else DeadGroupAt(cells, d, ns[0], opponent) + DeadGroups(cells, d, ns[1..], opponent)
  }

  lemma {:induction false} DeadGroupsMembers(cells: Cells, d: Dims, ns: seq<Coordinate>, opponent: Occupation)
    requires Sized(cells, d)
    ensures forall b :: b in DeadGroups(cells, d, ns, opponent) <==>
      exists n :: n in ns && InBoard(n, d) && At(cells, d, n) == Some(opponent) &&
                  !GroupHasLiberty(cells, d, n) && b in Group(cells, d, n)
    decreases |ns|
  {
    if ns != [] {
      DeadGroupsMembers(cells, d, ns[1..], opponent);
      assert forall n :: n in ns <==> n == ns[0] || n in ns[1..];
    }
  }

  /** The dead groups are whole groups of opponent. */
  lemma {:induction false} DeadGroupsWhole(cells: Cells, d: Dims, ns: seq<Coordinate>, opponent: Occupation)
    requires Sized(cells, d)
    ensures WholeGroups(cells, d, DeadGroups(cells, d, ns, opponent), opponent)
    decreases |ns|
  {
    if ns != [] {
      DeadGroupsWhole(cells, d, ns[1..], opponent);
      var n := ns[0];
      if InBoard(n, d) && At(cells, d, n) == Some(opponent) && !GroupHasLiberty(cells, d, n) {
        GroupColour(cells, d, n);
        forall x | x in Group(cells, d, n)
          ensures Group(cells, d, x) <= Group(cells, d, n)
        {
          GroupSame(cells, d, n, x);
        }
      }
    }
  }

  /**
   * One capture step on a board whose whole dead groups S are already
   * emptied: it empties the group of n exactly when that group holds the
   * opponent and had no liberty on the board before any capture.
   */
  lemma CaptureStep(cells: Cells, d: Dims, S: set<Coordinate>, n: Coordinate, opponent: Occupation)
    requires Sized(cells, d) && opponent != EMPTY && WholeGroups(cells, d, S, opponent)
    ensures CaptureAt(Cleared(cells, d, S), d, n, opponent) == Cleared(cells, d, S + DeadGroupAt(cells, d, n, opponent))
  {
    var m := Cleared(cells, d, S);
    AtCleared(cells, d, S);
    if !InBoard(n, d) || At(cells, d, n) != Some(opponent) {
      assert S + {} == S;
    } else if n in S {
      assert Group(cells, d, n) <= S;
      assert S + DeadGroupAt(cells, d, n, opponent) == S;
    } else {
      GroupAfterClearing(cells, d, S, opponent, n);
      LibertyAfterClearing(cells, d, S, opponent, n);
      KillIfDeadEffect(m, d, n);
      if Dead(m, d, n) {
        ClearedTwice(cells, d, S, Group(cells, d, n));
      } else {
        assert S + {} == S;
      }
    }
  }

  lemma {:induction false} CapturesAfterClearing(cells: Cells, d: Dims, S: set<Coordinate>, ns: seq<Coordinate>, opponent: Occupation)
    requires Sized(cells, d) && opponent != EMPTY && WholeGroups(cells, d, S, opponent)
    ensures Captures(Cleared(cells, d, S), d, ns, opponent) == Cleared(cells, d, S + DeadGroups(cells, d, ns, opponent))
    decreases |ns|
  {
    if ns == [] {
      assert S + {} == S;
    } else {
      var g := DeadGroupAt(cells, d, ns[0], opponent);
      CaptureStep(cells, d, S, ns[0], opponent);
      DeadGroupsWhole(cells, d, [ns[0]], opponent);
      assert DeadGroups(cells, d, [ns[0]], opponent) == g;
      assert WholeGroups(cells, d, S + g, opponent);
      CapturesAfterClearing(cells, d, S + g, ns[1..], opponent);
      assert S + g + DeadGroups(cells, d, ns[1..], opponent) == S + DeadGroups(cells, d, ns, opponent);
    }
  }

  /** Capturing EMPTY changes nothing. */
  lemma {:induction false} CapturesOfEmpty(cells: Cells, d: Dims, ns: seq<Coordinate>)
    requires Sized(cells, d)
    ensures Captures(cells, d, ns, EMPTY) == cells
    decreases |ns|
  {
    if ns != [] {
      var n := ns[0];
      if InBoard(n, d) && At(cells, d, n) == Some(EMPTY) {
        BreathesEmpty(cells, d, n);
        GroupColour(cells, d, n);
        ClearedIdle(cells, d, Group(cells, d, n));
      }
      CapturesOfEmpty(cells, d, ns[1..]);
    }
  }

  /**
   * The capture steps of a move, whatever their order, empty exactly the
   * opponent groups that hold a point of ns and have no liberty on the
   * board they start from.
   */
  lemma CapturesClear(cells: Cells, d: Dims, ns: seq<Coordinate>, opponent: Occupation)
    requires Sized(cells, d)
    ensures Captures(cells, d, ns, opponent) == Cleared(cells, d, DeadGroups(cells, d, ns, opponent))
  {
    var dead := DeadGroups(cells, d, ns, opponent);
    if opponent == EMPTY {
      CapturesOfEmpty(cells, d, ns);
      DeadGroupsWhole(cells, d, ns, opponent);
      ClearedIdle(cells, d, dead);
    } else {
      ClearedNone(cells, d);
      CapturesAfterClearing(cells, d, {}, ns, opponent);
      assert {} + dead == dead;
    }
  }

  /**
   * The captures of move(c, player): once the stone is placed, a point
   * becomes EMPTY exactly when it is in the group of an opponent stone next
   * to c and that group has no liberty; every other point keeps what it
   * held.
   */
  lemma CapturesEffect(cells: Cells, d: Dims, c: Coordinate, player: Occupation)
    requires Sized(cells, d) && InBoard(c, d)
    ensures var placed := Put(cells, d, c, Some(player));
      forall b :: InBoard(b, d) ==>
        At(AfterCaptures(cells, d, c, player), d, b) ==
          if exists n :: n in Neighbours(c) && InBoard(n, d) && At(placed, d, n) == Some(player.Opponent()) &&
                         !GroupHasLiberty(placed, d, n) && b in Group(placed, d, n)
          then Some(EMPTY) else At(placed, d, b)
  {
    var placed := Put(cells, d, c, Some(player));
    CapturesClear(placed, d, Neighbours(c), player.Opponent());
    AtCleared(placed, d, DeadGroups(placed, d, Neighbours(c), player.Opponent()));
    DeadGroupsMembers(placed, d, Neighbours(c), player.Opponent());
  }

  /** An opponent group next to c that keeps a liberty keeps all its stones. */
  lemma LiveGroupsSurvive(cells: Cells, d: Dims, c: Coordinate, player: Occupation, n: Coordinate)
    requires Sized(cells, d) && InBoard(c, d)
    requires n in Neighbours(c) && InBoard(n, d)
    requires At(Put(cells, d, c, Some(player)), d, n) == Some(player.Opponent())
    requires GroupHasLiberty(Put(cells, d, c, Some(player)), d, n)
    ensures forall b :: b in Group(Put(cells, d, c, Some(player)), d, n) ==>
      At(AfterCaptures(cells, d, c, player), d, b) == Some(player.Opponent())
  {
    var placed := Put(cells, d, c, Some(player));
    CapturesEffect(cells, d, c, player);
    GroupColour(placed, d, n);
    forall b | b in Group(placed, d, n)
      ensures At(AfterCaptures(cells, d, c, player), d, b) == Some(player.Opponent())
    {
      if exists n' :: n' in Neighbours(c) && InBoard(n', d) && At(placed, d, n') == Some(player.Opponent()) &&
                      !GroupHasLiberty(placed, d, n') && b in Group(placed, d, n') {
        var n' :| n' in Neighbours(c) && InBoard(n', d) && At(placed, d, n') == Some(player.Opponent()) &&
                  !GroupHasLiberty(placed, d, n') && b in Group(placed, d, n');
        GroupSame(placed, d, n, b);
        GroupSame(placed, d, n', b);
        assert false;
      }
    }
  }
}
