/**
 * The Weiqi (Go) game settings and board storage: the board size and the
 * row shift derived from it, the occupation of a point, the coordinates of
 * the points and the generic board array indexed by them.
 *
 * The Coordinate class is not part of this model. A coordinate is taken to
 * be a pair (x, y), on the board when both lie in [0, size), with its four
 * orthogonal neighbours in a fixed order and stored at x * 2^shift + y.
 */
module Weiqi {
  import opened Wrappers
  import opened JavaInts

  /** What occupies a point. */
  datatype Occupation = EMPTY | BLACK | WHITE
  {
    /** The other player; EMPTY has no opponent and maps to itself. */
    function Opponent(): Occupation
    {
      match this
      case BLACK => WHITE
      case WHITE => BLACK
      case EMPTY => EMPTY
    }

    /** The character the board display uses for the point. */
    function Display(): string
    {
      match this
      case BLACK => "X"
      case WHITE => "O"
      case EMPTY => "."
    }
  }

  /** opponent is an involution that swaps the two players and fixes EMPTY. */
  lemma OpponentInvolution(o: Occupation)
    ensures o.Opponent().Opponent() == o
    ensures o.Opponent() == o <==> o == EMPTY
    ensures o in Players <==> o.Opponent() in Players
  {
  }

  /** Distinct occupations display differently, each as one character. */
  lemma DisplayInjective(o1: Occupation, o2: Occupation)
    ensures |o1.Display()| == 1
    ensures o1.Display() == o2.Display() ==> o1 == o2
  {
  }

  /** The players, in turn order. */
  const Players: seq<Occupation> := [BLACK, WHITE]

  lemma PlayersAreTheNonEmpty(o: Occupation)
    ensures o in Players <==> o != EMPTY
    ensures |Players| == 2 && Players[0] != Players[1]
  {
  }

  function Pow2(n: nat): (r: nat)
    ensures r >= 1
  {
    if n == 0 then 1 else 2 * Pow2(n - 1)
  }

  lemma {:induction false} Pow2Monotone(a: nat, b: nat)
    requires a <= b
    ensures Pow2(a) <= Pow2(b)
    decreases b
  {
    if a < b {
      Pow2Monotone(a, b - 1);
    }
  }

  const TwoTo30: int := 0x4000_0000

  lemma Pow2Of30()
    ensures Pow2(30) == TwoTo30
  {
    assert Pow2(10) == 1024;
    assert Pow2(20) == 1024 * 1024;
  }

  lemma Pow2UpTo4(n: nat)
    ensures n <= 4 ==> Pow2(n) <= 16
  {
    if n <= 4 {
      Pow2Monotone(n, 4);
      assert Pow2(4) == 16;
    }
  }

  /** The board geometry: side length and the shift that spaces the rows. */
  datatype Dims = Dims(size: int, shift: nat)
  {
    /** Every row fits in its 2^shift slots. */
    predicate Valid()
    {
      0 <= size <= Pow2(shift)
    }

    /** size << shift: the number of slots of a board array. */
    function Length(): int
    {
      size * Pow2(shift)
    }
  }

  /** The game settings: Weiqi's static size, area and shift. */
  class Weiqi {
    var size: int
    var area: int
    var shift: nat

    /** The static initializer runs initialize(). */
    constructor ()
      ensures size == 19 && area == 361 && shift == 5
    {
      size, area, shift := 0, 0, 1;
      new;
      Initialize();
    }

    /** The geometry boards created now take. */
    function Geometry(): Dims
      reads this
    {
      Dims(size, shift)
    }

    /** initialize(): the standard 19 x 19 board. */
    method Initialize()
      modifies this
      ensures size == 19 && area == 361 && shift == 5
    {
      var terminates := AdjustSize(19);
      assert Pow2(5) == 32;
      Pow2UpTo4(shift);
    }

    /**
     * adjustSize(s): size := s, area := s * s as an int, and shift the least
     * value at least 1 with 2^shift >= s. For s above 2^30 the shift loop
     * never ends (1 << shift never reaches s); that case reports false and
     * leaves shift as it was.
     */
    method AdjustSize(s: int) returns (terminates: bool)
      modifies this
      ensures size == s && area == Wrap32(s * s)
      ensures terminates <==> s <= TwoTo30
      ensures terminates ==> shift >= 1 && Pow2(shift) >= s
      ensures terminates ==> forall j: nat :: 1 <= j < shift ==> Pow2(j) < s
      ensures terminates ==> Geometry().Valid() || s < 0
      ensures !terminates ==> shift == old(shift)
    {
      size := s;
      area := Wrap32(s * s);
      if s > TwoTo30 {
        return false;
      }
      var k: nat := 1;
      var p := 2;
      Pow2Of30();
      while p < s
        invariant 1 <= k <= 30 && p == Pow2(k)
        invariant forall j: nat :: 1 <= j < k ==> Pow2(j) < s
        decreases s - p
      {
        assert k < 30;
        k := k + 1;
        p := 2 * p;
      }
      shift := k;
      terminates := true;
    }
  }

  // Coordinates.

  datatype Coordinate = Coordinate(x: int, y: int)

  /** isWithinBoard(). */
  predicate InBoard(c: Coordinate, d: Dims)
  {
    0 <= c.x < d.size && 0 <= c.y < d.size
  }

  /** neighbours(): the four orthogonally adjacent coordinates, on the board or not. */
  function Neighbours(c: Coordinate): (ns: seq<Coordinate>)
    ensures |ns| == 4
  {
    [Coordinate(c.x - 1, c.y), Coordinate(c.x + 1, c.y), Coordinate(c.x, c.y - 1), Coordinate(c.x, c.y + 1)]
  }

  predicate Adjacent(a: Coordinate, b: Coordinate)
  {
    b in Neighbours(a)
  }

  lemma AdjacentSymmetric(a: Coordinate, b: Coordinate)
    ensures Adjacent(a, b) <==> Adjacent(b, a)
    ensures !Adjacent(a, a)
  {
  }

  /** All coordinates on the board (Coordinate.all()). */
  function AllCoords(d: Dims): set<Coordinate>
  {
    set x, y | 0 <= x < d.size && 0 <= y < d.size :: Coordinate(x, y)
  }

  lemma AllCoordsInBoard(d: Dims, c: Coordinate)
    ensures c in AllCoords(d) <==> InBoard(c, d)
  {
    if InBoard(c, d) {
      assert c == Coordinate(c.x, c.y);
    }
  }

  /** getArrayPosition(): x * 2^shift + y. */
  function Position(c: Coordinate, d: Dims): (p: int)
    requires d.Valid() && InBoard(c, d)
    ensures 0 <= p < d.Length()
  {
    PositionBound(c, d);
    c.x * Pow2(d.shift) + c.y
  }

  lemma MulMonotone(a: int, b: int, m: nat)
    requires a <= b
    ensures a * m <= b * m
  {
    assert b * m - a * m == (b - a) * m;
  }

  lemma MulSucc(a: int, m: int)
    ensures (a + 1) * m == a * m + m
  {
  }

  lemma PositionBound(c: Coordinate, d: Dims)
    requires d.Valid() && InBoard(c, d)
    ensures 0 <= c.x * Pow2(d.shift) + c.y < d.Length()
  {
    var m := Pow2(d.shift);
    MulMonotone(0, c.x, m);
    MulMonotone(c.x + 1, d.size, m);
    MulSucc(c.x, m);
  }

  /** Distinct points on the board have distinct positions. */
  lemma PositionInjective(a: Coordinate, b: Coordinate, d: Dims)
    requires d.Valid() && InBoard(a, d) && InBoard(b, d)
    ensures Position(a, d) == Position(b, d) <==> a == b
  {
    var m := Pow2(d.shift);
    if a.x < b.x {
      RowsApart(a, b, m);
    } else if b.x < a.x {
      RowsApart(b, a, m);
    }
  }

  /** A point of an earlier row comes earlier. */
  lemma RowsApart(a: Coordinate, b: Coordinate, m: nat)
    requires a.x < b.x && 0 <= a.y < m && 0 <= b.y
    ensures a.x * m + a.y < b.x * m + b.y
  {
    MulMonotone(a.x + 1, b.x, m);
    MulSucc(a.x, m);
  }

  /** The generic board array: one slot per position, null (None) when unset. */
  class Array<T(==)> {
    const dims: Dims
    const positions: array<Option<T>>

    ghost predicate Valid()
      reads this
    {
      dims.Valid() && positions.Length == dims.Length()
    }

    /** new Array(): size << shift empty slots. */
    constructor (dims: Dims)
      requires dims.Valid()
      ensures Valid() && this.dims == dims && fresh(positions)
      ensures forall i :: 0 <= i < positions.Length ==> positions[i] == None
    {
      this.dims := dims;
      positions := new Option<T>[dims.Length()](_ => None);
    }

    /** new Array(array): a copy with its own slots. */
    constructor Copy(source: Array<T>)
      requires source.Valid()
      ensures Valid() && dims == source.dims && fresh(positions)
      ensures positions[..] == source.positions[..]
    {
      dims := source.dims;
      positions := new Option<T>[source.dims.Length()](i requires 0 <= i < source.positions.Length reads source.positions => source.positions[i]);
    }

    /** get(c). */
    function Get(c: Coordinate): Option<T>
      requires Valid() && InBoard(c, dims)
      reads this, positions
    {
      positions[Position(c, dims)]
    }

    /** set(c, t): c reads t afterwards and every other point is unchanged. */
    method Set(c: Coordinate, t: Option<T>)
      requires Valid() && InBoard(c, dims)
      modifies positions
      ensures positions[..] == old(positions[..])[Position(c, dims) := t]
      ensures Get(c) == t
      ensures forall e :: InBoard(e, dims) && e != c ==> Get(e) == old(Get(e))
    {
      positions[Position(c, dims)] := t;
      forall e | InBoard(e, dims) && e != c
        ensures Get(e) == old(Get(e))
      {
        PositionInjective(c, e, dims);
      }
    }

    /** equals(array): the same contents, slot by slot. */
    function Equals(other: Array<T>): (r: bool)
      reads this, positions, other, other.positions
      ensures r <==> positions.Length == other.positions.Length &&
                     forall i :: 0 <= i < positions.Length ==> positions[i] == other.positions[i]
    {
      positions[..] == other.positions[..]
    }
  }

  /** A copy equals its original, and writing to the copy leaves the original alone. */
  method CopyIsIndependent<T(==)>(a: Array<T>, c: Coordinate, t: Option<T>) returns (b: Array<T>)
    requires a.Valid() && InBoard(c, a.dims)
    ensures b.dims == a.dims && b.Valid() && fresh(b.positions)
    ensures b.Get(c) == t && forall e :: InBoard(e, b.dims) && e != c ==> b.Get(e) == a.Get(e)
    ensures a.positions[..] == old(a.positions[..])
  {
    b := new Array.Copy(a);
    b.Set(c, t);
  }
}
