/**
 * The collection and string helpers of the utility class: list truncation,
 * unique extraction, blank test, null-safe equality/comparison/hashing,
 * element-wise mapping, substring with negative positions, and pairs.
 *
 * Java's null is Option's None; a thrown exception is a Failure; hash codes
 * are 32-bit words.
 */
module Utils {
  import opened Wrappers

  function Min(a: int, b: int): int { if a <= b then a else b }

  /** A java.util.ArrayList: a sequence updated in place. */
  class ArrayList<E> {
    var elems: seq<E>

    constructor ()
      ensures elems == []
    {
      elems := [];
    }

    function Size(): (n: nat)
      reads this
      ensures n == |elems|
    {
      |elems|
    }

    method Add(e: E)
      modifies this
      ensures elems == old(elems) + [e]
    {
      elems := elems + [e];
    }

    /** remove(int): drops the element at i, shifting the later ones down. */
    method RemoveAt(i: nat)
      requires i < |elems|
      modifies this
      ensures elems == old(elems)[..i] + old(elems)[i + 1..]
    {
      elems := elems[..i] + elems[i + 1..];
    }
  }

  /**
   * What truncate(list, n) leaves behind: the first n elements, the whole list
   * when n is at least its size, and nothing when n is negative (the source
   * empties the list before its remove(-1) throws).
   */
  function Truncated<E>(s: seq<E>, n: int): (r: seq<E>)
    ensures n >= 0 ==> |r| == Min(|s|, n)
    ensures n < 0 ==> r == []
    ensures r == s[..|r|]
    ensures n >= |s| ==> r == s
  {
    if n < 0 then [] else if n < |s| then s[..n] else s
  }

  /**
   * truncate(list, n): removes the last element while the size exceeds n.
   * ok is false when the loop ran past the empty list (n < 0), where the
   * source throws IndexOutOfBoundsException.
   */
  method Truncate<E>(list: ArrayList<E>, n: int) returns (ok: bool)
    modifies list
    ensures list.elems == Truncated(old(list.elems), n)
    ensures ok <==> n >= 0
  {
    var size := list.Size();
    ok := true;
    while size > n
      invariant 0 <= size == |list.elems| <= |old(list.elems)|
      invariant list.elems == old(list.elems)[..size]
      invariant n >= 0 ==> size >= Min(|old(list.elems)|, n)
      decreases size
    {
      if size == 0 {
        ok := false;
        return;
      }
      size := size - 1;
      list.RemoveAt(size);
    }
  }

  /** unique(list): the sole element, or the exception naming why there is none. */
  function Unique<E>(list: seq<E>): (r: Result<E, string>)
    ensures r.Success? <==> |list| == 1
    ensures r.Success? ==> list == [r.value]
    ensures |list| == 0 ==> r == Failure("Result is empty")
    ensures |list| > 1 ==> r == Failure("Result not unique")
  {
    if |list| == 0 then Failure("Result is empty")
    else if |list| > 1 then Failure("Result not unique")
    else Success(list[0])
  }

  /** Character.isWhitespace as of Java 8 (Unicode 6.2): the space separators
    * other than the no-break spaces (U+180E MONGOLIAN VOWEL SEPARATOR is still
    * one), the line and paragraph separators, and the ASCII controls HT, LF,
    * VT, FF, CR and FS, GS, RS, US. */
  predicate IsWhitespace(c: char)
  {
    var n := c as int;
    || 0x09 <= n <= 0x0D
    || 0x1C <= n <= 0x20
    || n == 0x1680 || n == 0x180E
    || 0x2000 <= n <= 0x2006
    || 0x2008 <= n <= 0x200A
    || n == 0x2028 || n == 0x2029 || n == 0x205F || n == 0x3000
  }

  /** isBlank(s): null is blank; otherwise accumulates "is whitespace" over every character. */
  method IsBlank(s: Option<string>) returns (blank: bool)
    ensures blank <==> s.None? || forall i :: 0 <= i < |s.value| ==> IsWhitespace(s.value[i])
  {
    blank := true;
    if s.Some? {
      var chars := s.value;
      for i := 0 to |chars|
        invariant blank <==> forall j :: 0 <= j < i ==> IsWhitespace(chars[j])
      {
        blank := blank && IsWhitespace(chars[i]);
      }
    }
  }

  /** equals(t1, t2): null-safe, delegating to eq when both are present. */
  function Equals<T>(t1: Option<T>, t2: Option<T>, eq: (T, T) -> bool): (r: bool)
    ensures t1.None? && t2.None? ==> r
    ensures t1.None? != t2.None? ==> !r
    ensures t1.Some? && t2.Some? ==> r == eq(t1.value, t2.value)
  {
    if t1.None? != t2.None? then false
    else if t1.Some? then eq(t1.value, t2.value)
    else true
  }

  lemma EqualsSymmetric<T>(t1: Option<T>, t2: Option<T>, eq: (T, T) -> bool)
    requires forall a, b :: eq(a, b) == eq(b, a)
    ensures Equals(t1, t2, eq) == Equals(t2, t1, eq)
  {
  }

  /** compare(t1, t2): null sorts before everything else; cmp decides otherwise. */
  function Compare<T>(t1: Option<T>, t2: Option<T>, cmp: (T, T) -> int): (r: int)
    ensures t1.None? && t2.Some? ==> r == -1
    ensures t1.Some? && t2.None? ==> r == 1
    ensures t1.None? && t2.None? ==> r == 0
    ensures t1.Some? && t2.Some? ==> r == cmp(t1.value, t2.value)
  {
    if t1.None? != t2.None? then (if t1.Some? then 1 else -1)
    else if t1.Some? then cmp(t1.value, t2.value)
    else 0
  }

  function Sign(n: int): int { if n < 0 then -1 else if n > 0 then 1 else 0 }

  /** An antisymmetric comparator stays antisymmetric once null is added. */
  lemma CompareAntisymmetric<T>(t1: Option<T>, t2: Option<T>, cmp: (T, T) -> int)
    requires forall a, b :: Sign(cmp(a, b)) == -Sign(cmp(b, a))
    ensures Sign(Compare(t1, t2, cmp)) == -Sign(Compare(t2, t1, cmp))
  {
  }

  /** hashCode(t): 0 for null, the element's own hash otherwise. */
  function HashCode<T>(t: Option<T>, hash: T -> bv32): (h: bv32)
    ensures t.None? ==> h == 0
    ensures t.Some? ==> h == hash(t.value)
  {
    if t.Some? then hash(t.value) else 0
  }

  lemma HashCodeRespectsEquals<T>(t1: Option<T>, t2: Option<T>, eq: (T, T) -> bool, hash: T -> bv32)
    requires forall a, b :: eq(a, b) ==> hash(a) == hash(b)
    requires Equals(t1, t2, eq)
    ensures HashCode(t1, hash) == HashCode(t2, hash)
  {
  }

  /** map(in, t): a fresh list holding t of each element, in order. */
  method Map<I, O>(input: seq<I>, t: I -> O) returns (out: seq<O>)
    ensures |out| == |input|
    ensures forall i :: 0 <= i < |input| ==> out[i] == t(input[i])
  {
    out := [];
    for k := 0 to |input|
      invariant |out| == k
      invariant forall i :: 0 <= i < k ==> out[i] == t(input[i])
    {
      out := out + [t(input[k])];
    }
  }

  /** Why substr produces no string. */
  datatype SubstrFault = LoopsForever | StringIndexOutOfBounds

  /**
   * What substr(s, start, end) computes: a negative start counts from the end
   * (it is taken modulo the length), an end <= 0 likewise lands in (0, length];
   * on an empty string those normalisations never finish.
   */
  function SubstrSpec(s: string, start: int, end: int): Result<string, SubstrFault>
  {
    var length := |s|;
    if length == 0 && (start < 0 || end <= 0) then Failure(LoopsForever)
    else
      var b := if start < 0 then start % length else start;
      var e := if end <= 0 then (end - 1) % length + 1 else end;
      if b <= e <= length then Success(s[b..e]) else Failure(StringIndexOutOfBounds)
  }

  lemma MulAtLeast(n: int, k: int)
    requires n > 0 && k >= 1
    ensures n * k >= n
  {
    if k > 1 {
      MulAtLeast(n, k - 1);
      assert n * k == n * (k - 1) + n;
    }
  }

  /** Adding the modulus does not change the remainder. */
  lemma ModShift(a: int, n: int)
    requires n > 0
    ensures (a + n) % n == a % n
  {
    var q1, r1 := a / n, a % n;
    var q2, r2 := (a + n) / n, (a + n) % n;
    var k := q2 - q1 - 1;
    assert n * k == r1 - r2 by {
      assert n * q2 - n * q1 - n == n * (q2 - q1 - 1);
    }
    if k > 0 {
      MulAtLeast(n, k);
    }
  }

  /** A value already in [0, n) is its own remainder. */
  lemma ModSmall(a: int, n: int)
    requires 0 <= a < n
    ensures a % n == a
  {
    var q := a / n;
    assert a == n * q + a % n;
    if q >= 1 {
      MulAtLeast(n, q);
    }
  }

  /**
   * substr(s, start, end): adds the length to start while it is negative and
   * to end while it is not positive, then takes s[start..end). The model
   * reports LoopsForever where those loops cannot terminate (empty s).
   */
  method Substr(s: string, start: int, end: int) returns (r: Result<string, SubstrFault>)
    ensures r == SubstrSpec(s, start, end)
  {
    var length := |s|;
    if length == 0 && (start < 0 || end <= 0) {
      return Failure(LoopsForever);
    }
    var b := start;
    while b < 0
      invariant start < 0 ==> length > 0 && b < length && b % length == start % length
      invariant start >= 0 ==> b == start
      decreases -b
    {
      ModShift(b, length);
      b := b + length;
    }
    if start < 0 {
      ModSmall(b, length);
    }
    var e := end;
    while e <= 0
      invariant end <= 0 ==> length > 0 && e <= length && (e - 1) % length == (end - 1) % length
      invariant end > 0 ==> e == end
      decreases -e
    {
      ModShift(e - 1, length);
      e := e + length;
    }
    if end <= 0 {
      ModSmall(e - 1, length);
    }
    if b <= e <= length {
      r := Success(s[b..e]);
    } else {
      r := Failure(StringIndexOutOfBounds);
    }
  }

  /** substr(s, -k, 0) is the last k characters of s. */
  lemma SubstrLast(s: string, k: int)
    requires 0 < k <= |s|
    ensures SubstrSpec(s, -k, 0) == Success(s[|s| - k..])
  {
    var n := |s|;
    ModShift(-k, n);
    assert -k + n == n - k;
    ModSmall(n - k, n);
    assert (-k) % n == n - k;
    ModShift(-1, n);
    assert -1 + n == n - 1;
    ModSmall(n - 1, n);
    assert (0 - 1) % n + 1 == n;
    assert s[n - k..n] == s[n - k..];
  }

  /** substr never finishes on the empty string when start or end needs normalising. */
  lemma SubstrEmptyLoops(start: int, end: int)
    requires start < 0 || end <= 0
    ensures SubstrSpec("", start, end) == Failure(LoopsForever)
  {
  }

  /** Util.Pair: two nullable components. */
  datatype Pair<T1, T2> = Pair(t1: Option<T1>, t2: Option<T2>)

  /**
   * Pair.equals(o). The argument is None when it is null or not a Pair, where
   * the instanceof test fails. Otherwise the pairs are equal exactly when
   * their components are null together and equal where present.
   */
  function PairEquals<T1, T2>(p: Pair<T1, T2>, o: Option<Pair<T1, T2>>,
                              eq1: (T1, T1) -> bool, eq2: (T2, T2) -> bool): (r: bool)
    ensures o.None? ==> !r
    ensures r ==> (p.t1.None? <==> o.value.t1.None?) && (p.t2.None? <==> o.value.t2.None?)
    ensures r ==> (p.t1.Some? ==> eq1(p.t1.value, o.value.t1.value)) && (p.t2.Some? ==> eq2(p.t2.value, o.value.t2.value))
    ensures (&& o.Some?
             && (p.t1.None? <==> o.value.t1.None?) && (p.t2.None? <==> o.value.t2.None?)
             && (p.t1.Some? ==> eq1(p.t1.value, o.value.t1.value))
             && (p.t2.Some? ==> eq2(p.t2.value, o.value.t2.value))) ==> r
  {
    match o
    case None => false
    case Some(q) => Equals(p.t1, q.t1, eq1) && Equals(p.t2, q.t2, eq2)
  }

  /** A pair equals itself when its components' equalities are reflexive. */
  lemma PairEqualsReflexive<T1, T2>(p: Pair<T1, T2>, eq1: (T1, T1) -> bool, eq2: (T2, T2) -> bool)
    requires forall a :: eq1(a, a)
    requires forall b :: eq2(b, b)
    ensures PairEquals(p, Some(p), eq1, eq2)
  {
  }

  /** Pair equality is symmetric when its components' equalities are. */
  lemma PairEqualsSymmetric<T1, T2>(p: Pair<T1, T2>, q: Pair<T1, T2>, eq1: (T1, T1) -> bool, eq2: (T2, T2) -> bool)
    requires forall a, b :: eq1(a, b) == eq1(b, a)
    requires forall a, b :: eq2(a, b) == eq2(b, a)
    ensures PairEquals(p, Some(q), eq1, eq2) == PairEquals(q, Some(p), eq1, eq2)
  {
    EqualsSymmetric(p.t1, q.t1, eq1);
    EqualsSymmetric(p.t2, q.t2, eq2);
  }

  /** Pair.hashCode: XOR of the component hashes, null counting as 0. */
  function PairHashCode<T1, T2>(p: Pair<T1, T2>, h1: T1 -> bv32, h2: T2 -> bv32): (h: bv32)
    ensures p.t1.None? && p.t2.None? ==> h == 0
    ensures p.t1.None? ==> h == HashCode(p.t2, h2)
    ensures p.t2.None? ==> h == HashCode(p.t1, h1)
    ensures p.t1.Some? && p.t2.Some? ==> h == Xor(h1(p.t1.value), h2(p.t2.value))
  {
    Xor(HashCode(p.t1, h1), HashCode(p.t2, h2))
  }

  /** Java's int ^ on 32-bit words; 0 is its identity. */
  function Xor(a: bv32, b: bv32): (r: bv32)
    ensures a == 0 ==> r == b
    ensures b == 0 ==> r == a
    ensures r == 0 <==> a == b
  {
    a ^ b
  }

  /** Equal pairs hash equally when each component's hash respects its equality. */
  lemma PairHashRespectsEquals<T1, T2>(p: Pair<T1, T2>, q: Pair<T1, T2>,
                                         eq1: (T1, T1) -> bool, eq2: (T2, T2) -> bool,
                                         h1: T1 -> bv32, h2: T2 -> bv32)
    requires forall a, b :: eq1(a, b) ==> h1(a) == h1(b)
    requires forall a, b :: eq2(a, b) ==> h2(a) == h2(b)
    requires PairEquals(p, Some(q), eq1, eq2)
    ensures PairHashCode(p, h1, h2) == PairHashCode(q, h1, h2)
  {
    HashCodeRespectsEquals(p.t1, q.t1, eq1, h1);
    HashCodeRespectsEquals(p.t2, q.t2, eq2, h2);
  }
}
