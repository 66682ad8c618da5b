/**
 * The term formatter: renders a term as text, parenthesising operator trees
 * by precedence and associativity. display renders names and strings as
 * they are; dump quotes atoms where needed and strings always, so that the
 * output can be parsed back.
 *
 * TermOp (the operator table display and dump use) and Generalizer's
 * variable prefix are not part of this model; both are parameters.
 */
module Formatting {
  import opened Wrappers
  import opened Terms

  // Quoting.

  /** String.replace of the one-character string c by cc: doubles every c. */
  function Double(s: string, c: char): (r: string)
    ensures |r| == |s| + Count(s, c)
  {
    if s == [] then [] else (if s[0] == c then [c, c] else [s[0]]) + Double(s[1..], c)
  }

  /** The number of occurrences of c in s. */
  function Count(s: string, c: char): nat
  {
    if s == [] then 0 else (if s[0] == c then 1 else 0) + Count(s[1..], c)
  }

  /** Reads back a text in which every c is doubled; None if some c stands alone. */
  function Undouble(t: string, c: char): Option<string>
  {
    if t == [] then Some([])
    else if t[0] != c then
      match Undouble(t[1..], c)
      case None => None
      case Some(rest) => Some([t[0]] + rest)
    else if |t| >= 2 && t[1] == c then
      match Undouble(t[2..], c)
      case None => None
      case Some(rest) => Some([c] + rest)
    else None
  }

  /** quote(s, q): q, then s with q doubled and then % doubled, then q. */
  function Quote(s: string, q: char): (r: string)
    ensures |r| >= |s| + 2 && r[0] == q && r[|r| - 1] == q
  {
    [q] + Double(Double(s, q), '%') + [q]
  }

  /** Reads back a text written by Quote. */
  function Unquote(t: string, q: char): Option<string>
  {
    if |t| < 2 || t[0] != q || t[|t| - 1] != q then None
    else
      match Undouble(t[1..|t| - 1], '%')
      case None => None
      case Some(u) => Undouble(u, q)
  }

  /** Doubling can be undone. */
  lemma {:induction false} UndoubleDouble(s: string, c: char)
    ensures Undouble(Double(s, c), c) == Some(s)
  {
    if s != [] {
      UndoubleDouble(s[1..], c);
      var d := Double(s, c);
      if s[0] == c {
        assert d == [c, c] + Double(s[1..], c);
        assert d[2..] == Double(s[1..], c);
      } else {
        assert d == [s[0]] + Double(s[1..], c);
        assert d[1..] == Double(s[1..], c);
      }
      assert [s[0]] + s[1..] == s;
    }
  }

  /** Whatever quote writes, the matching reader gives back. */
  lemma QuoteRoundTrip(s: string, q: char)
    ensures Unquote(Quote(s, q), q) == Some(s)
  {
    var t := Quote(s, q);
    assert t[1..|t| - 1] == Double(Double(s, q), '%');
    UndoubleDouble(Double(s, q), '%');
    UndoubleDouble(s, q);
  }

  /** Doubling c doubles the count of c and leaves the count of every other character. */
  lemma {:induction false} CountDouble(s: string, c: char, d: char)
    ensures Count(Double(s, c), d) == if c == d then 2 * Count(s, d) else Count(s, d)
  {
    if s != [] {
      CountDouble(s[1..], c, d);
      var head := if s[0] == c then [c, c] else [s[0]];
      CountAppend(head, Double(s[1..], c), d);
    }
  }

  lemma {:induction false} CountAppend(a: string, b: string, d: char)
    ensures Count(a + b, d) == Count(a, d) + Count(b, d)
  {
    if a == [] {
      assert a + b == b;
    } else {
      assert (a + b)[0] == a[0];
      assert (a + b)[1..] == a[1..] + b;
      CountAppend(a[1..], b, d);
    }
  }

  /** Java's String.contains: sub occurs in s at some position. */
  predicate Contains(s: string, sub: string)
  {
    exists i :: 0 <= i <= |s| - |sub| && OccursAt(s, sub, i)
  }

  /** sub is the slice of s starting at i. */
  predicate OccursAt(s: string, sub: string, i: nat)
    requires i <= |s| - |sub|
  {
    s[i..i + |sub|] == sub
  }

  /** An atom name must be quoted when it holds a ' or the name of any operator. */
  predicate NeedsQuote(s: string, operators: seq<Operator>)
  {
    '\'' in s || exists k :: 0 <= k < |operators| && Contains(s, operators[k].name)
  }

  /** quoteAtomIfRequired(s): () for the empty name; the name with % doubled
    * and then quoted with ' when it needs quoting; the name itself otherwise. */
  function QuotedAtom(s: string, operators: seq<Operator>): string
  {
    if s == [] then "()"
    else if NeedsQuote(s, operators) then Quote(Double(s, '%'), '\'')
    else s
  }

  /** A quoted atom carries four % for every % of the name, since the name
    * is %-doubled before quote doubles % again. */
  lemma QuotedAtomPercent(s: string, operators: seq<Operator>)
    requires s != [] && NeedsQuote(s, operators)
    ensures Count(QuotedAtom(s, operators), '%') == 4 * Count(s, '%')
    ensures Unquote(QuotedAtom(s, operators), '\'') == Some(Double(s, '%'))
  {
    var d := Double(Double(Double(s, '%'), '\''), '%');
    CountDouble(s, '%', '%');
    CountDouble(Double(s, '%'), '\'', '%');
    CountDouble(Double(Double(s, '%'), '\''), '%', '%');
    CountAppend(['\''], d, '%');
    CountAppend(['\''] + d, ['\''], '%');
    QuoteRoundTrip(Double(s, '%'), '\'');
  }

  // Decimal numbers, as StringBuilder.append(int) writes them.

  function DigitChar(d: nat): char
    requires d < 10
  {
    "0123456789"[d]
  }

  predicate IsDigit(c: char) { '0' <= c <= '9' }

  function NatToString(n: nat): (r: string)
    ensures |r| >= 1 && forall i :: 0 <= i < |r| ==> IsDigit(r[i])
    decreases n
  {
    if n < 10 then [DigitChar(n)] else NatToString(n / 10) + [DigitChar(n % 10)]
  }

  function IntToString(n: int): (r: string)
    ensures |r| >= 1
  {
    if n < 0 then "-" + NatToString(-n) else NatToString(n)
  }

  /** Reads a string of decimal digits. */
  function ParseNat(s: string): nat
    requires forall i :: 0 <= i < |s| ==> IsDigit(s[i])
  {
    if s == [] then 0 else 10 * ParseNat(s[..|s| - 1]) + DigitValue(s[|s| - 1])
  }

  function DigitValue(c: char): (d: nat)
    requires IsDigit(c)
    ensures d < 10
  {
    c as int - '0' as int
  }

  /** Reads an optionally negative decimal number. */
  function ParseInt(s: string): int
  {
    if |s| > 0 && s[0] == '-' && forall i :: 1 <= i < |s| ==> IsDigit(s[i]) then -(ParseNat(s[1..]) as int)
    else if forall i :: 0 <= i < |s| ==> IsDigit(s[i]) then ParseNat(s)
    else 0
  }

  lemma {:induction false} ParseNatToString(n: nat)
    ensures ParseNat(NatToString(n)) == n
    decreases n
  {
    var s := NatToString(n);
    if n < 10 {
      DigitRoundTrip(n);
    } else {
      var q, d := n / 10, n % 10;
      ParseNatToString(q);
      DigitRoundTrip(d);
      assert s == NatToString(q) + [DigitChar(d)];
      assert s[..|s| - 1] == NatToString(q);
      assert n == 10 * q + d;
    }
  }

  lemma DigitRoundTrip(d: nat)
    requires d < 10
    ensures IsDigit(DigitChar(d)) && DigitValue(DigitChar(d)) == d
  {
  }

  /** The decimal text of an integer reads back as that integer. */
  lemma ParseIntToString(n: int)
    ensures ParseInt(IntToString(n)) == n
  {
    var s := IntToString(n);
    if n < 0 {
      assert s[1..] == NatToString(-n);
      ParseNatToString(-n);
    } else {
      ParseNatToString(n);
    }
  }

  // Rendering.

  /** The precedence passed to the left child of a tree built with op. */
  function LeftPrec(op: Operator): int
  {
    if op.assoc == RIGHT then op.precedence - 1 else op.precedence
  }

  /** The precedence passed to the right child of a tree built with op. */
  function RightPrec(op: Operator): int
  {
    if op.assoc == LEFT then op.precedence - 1 else op.precedence
  }

  /** Whether node, rendered under parentPrec, is enclosed in parentheses. */
  predicate Wrapped(node: Term, parentPrec: int)
  {
    var n := FinalNode(node);
    n.Tree? && n.operator.precedence <= parentPrec
  }

  /** The text between the children: the name, then a space unless the name ends with one. */
  function Infix(name: string): string
  {
    if |name| > 0 && name[|name| - 1] == ' ' then name else name + " "
  }

  /** format(node, parentPrec, dump, sb): the text appended for node. */
  function Rendered(node: Term, parentPrec: int, dump: bool, operators: seq<Operator>, variablePrefix: string): string
    decreases Size(node), 1
  {
    match FinalNode(node)
    case Int(n) => IntToString(n)
    case Atom(name) => if dump then QuotedAtom(name, operators) else name
    case Str(value) => if dump then Quote(value, '"') else value
    case Tree(op, _, _) =>
      var inner := Unwrapped(FinalNode(node), dump, operators, variablePrefix);
      if op.precedence <= parentPrec then "(" + inner + ")" else inner
    case Reference(id, _) => variablePrefix + IntToString(id)
  }

  /** The text of a tree without enclosing parentheses: left child, operator, right child. */
  function Unwrapped(tree: Term, dump: bool, operators: seq<Operator>, variablePrefix: string): string
    requires tree.Tree?
    decreases Size(tree), 0
  {
    Rendered(tree.left, LeftPrec(tree.operator), dump, operators, variablePrefix) + Infix(tree.operator.name)
    + Rendered(tree.right, RightPrec(tree.operator), dump, operators, variablePrefix)
  }

  /** A tree is enclosed in parentheses exactly when its precedence is at
    * most the one its parent passes, and what is inside does not depend on
    * the parent. */
  lemma ParenthesesIff(node: Term, parentPrec: int, dump: bool, operators: seq<Operator>, variablePrefix: string)
    requires FinalNode(node).Tree?
    ensures var q := FinalNode(node).operator.precedence;
      var inner := Rendered(node, q - 1, dump, operators, variablePrefix);
      !Wrapped(node, q - 1) &&
      Rendered(node, parentPrec, dump, operators, variablePrefix) ==
        if Wrapped(node, parentPrec) then "(" + inner + ")" else inner
  {
  }

  /** A child whose operator binds strictly tighter than its parent's is
    * never parenthesised; one of the same precedence is parenthesised on the
    * left unless the parent is right-associative, and on the right unless it
    * is left-associative. */
  lemma ChildWrapping(op: Operator, child: Term)
    requires FinalNode(child).Tree?
    ensures FinalNode(child).operator.precedence > op.precedence ==>
      !Wrapped(child, LeftPrec(op)) && !Wrapped(child, RightPrec(op))
    ensures FinalNode(child).operator.precedence == op.precedence ==>
      (Wrapped(child, LeftPrec(op)) <==> op.assoc != RIGHT) &&
      (Wrapped(child, RightPrec(op)) <==> op.assoc != LEFT)
  {
  }

  /** The text of an operator name always ends in exactly the name followed by a space. */
  lemma InfixEndsWithSpace(name: string)
    ensures |Infix(name)| > 0 && Infix(name)[|Infix(name)| - 1] == ' '
    ensures Infix(name)[..|name|] == name
  {
  }

  /** Terms that display and dump alike: no strings, and atoms that are
    * non-empty and need no quotes. */
  predicate Plain(node: Term, operators: seq<Operator>)
    decreases Size(node)
  {
    match FinalNode(node)
    case Atom(name) => name != [] && !NeedsQuote(name, operators)
    case Str(_) => false
    case Tree(_, l, r) => Plain(l, operators) && Plain(r, operators)
    case _ => true
  }

  /** On plain terms dump writes what display writes. */
  lemma {:induction false} DumpOfPlain(node: Term, parentPrec: int, operators: seq<Operator>, variablePrefix: string)
    requires Plain(node, operators)
    ensures Rendered(node, parentPrec, true, operators, variablePrefix) ==
            Rendered(node, parentPrec, false, operators, variablePrefix)
    decreases Size(node)
  {
    match FinalNode(node)
    case Tree(op, l, r) =>
      DumpOfPlain(l, LeftPrec(op), operators, variablePrefix);
      DumpOfPlain(r, RightPrec(op), operators, variablePrefix);
    case _ =>
  }

  /** Formatting dereferences first: a bound reference renders as its value. */
  lemma RendersFinalNode(node: Term, parentPrec: int, dump: bool, operators: seq<Operator>, variablePrefix: string)
    ensures Rendered(node, parentPrec, dump, operators, variablePrefix) ==
            Rendered(FinalNode(node), parentPrec, dump, operators, variablePrefix)
  {
  }

  /** Appending b and then c to a gives a followed by b + c: this turns the
    * buffer after several appends into the rendering as one piece. */
  lemma AppendAssoc(a: string, b: string, c: string)
    ensures (a + b) + c == a + (b + c)
  {
  }

  /** The buffer format appends to. */
  class StringBuilder {
    var contents: string

    constructor ()
      ensures contents == []
    {
      contents := [];
    }

    method Append(s: string)
      modifies this
      ensures contents == old(contents) + s
    {
      contents := contents + s;
    }
  }

  class Formatter {
    const operators: seq<Operator>
    const variablePrefix: string

    constructor (operators: seq<Operator>, variablePrefix: string)
      ensures this.operators == operators && this.variablePrefix == variablePrefix
    {
      this.operators := operators;
      this.variablePrefix := variablePrefix;
    }

    /** format(node, dump): renders node with parent precedence 0. */
    method Format(node: Term, dump: bool) returns (r: string)
      ensures r == Rendered(node, 0, dump, operators, variablePrefix)
    {
      var sb := new StringBuilder();
      FormatInto(node, 0, dump, sb);
      r := sb.contents;
    }

    /** format(node, parentPrec, dump, sb): appends the text of node to sb. */
    method FormatInto(node: Term, parentPrec: int, dump: bool, sb: StringBuilder)
      modifies sb
      ensures sb.contents == old(sb.contents) + Rendered(node, parentPrec, dump, operators, variablePrefix)
      decreases Size(node), 2
    {
      var n := FinalNode(node);
      match n {
        case Int(number) =>
          sb.Append(IntToString(number));
        case Atom(name) =>
          var s := name;
          if dump {
            s := QuoteAtomIfRequired(s);
          }
          sb.Append(s);
        case Str(value) =>
          sb.Append(if dump then Quote(value, '"') else value);
        case Tree(_, _, _) =>
          FormatTree(n, parentPrec, dump, sb);
          RendersFinalNode(node, parentPrec, dump, operators, variablePrefix);
        case Reference(id, _) =>
          sb.Append(variablePrefix + IntToString(id));
      }
    }

    /** The Tree branch of format: the parentheses when the tree's
      * precedence is at most parentPrec, around its unwrapped text. */
    method FormatTree(tree: Term, parentPrec: int, dump: bool, sb: StringBuilder)
      requires tree.Tree?
      modifies sb
      ensures sb.contents == old(sb.contents) + Rendered(tree, parentPrec, dump, operators, variablePrefix)
      decreases Size(tree), 1
    {
      var needParentheses := tree.operator.precedence <= parentPrec;
      if needParentheses {
        ghost var s0 := sb.contents;
        sb.Append("(");
        FormatUnwrapped(tree, dump, sb);
        sb.Append(")");
        ghost var inner := Unwrapped(tree, dump, operators, variablePrefix);
        AppendAssoc(s0, "(", inner);
        AppendAssoc(s0, "(" + inner, ")");
      } else {
        FormatUnwrapped(tree, dump, sb);
      }
    }

    /** Left child, operator name (and a space unless it ends with one), right child. */
    method FormatUnwrapped(tree: Term, dump: bool, sb: StringBuilder)
      requires tree.Tree?
      modifies sb
      ensures sb.contents == old(sb.contents) + Unwrapped(tree, dump, operators, variablePrefix)
      decreases Size(tree), 0
    {
      var operator := tree.operator;
      var leftPrec, rightPrec := operator.precedence, operator.precedence;
      if operator.assoc == LEFT {
        rightPrec := rightPrec - 1;
      } else if operator.assoc == RIGHT {
        leftPrec := leftPrec - 1;
      }
      ghost var s1 := sb.contents;
      FormatInto(tree.left, leftPrec, dump, sb);
      ghost var s2 := sb.contents;
      var name := operator.name;
      sb.Append(name);
      if !(|name| > 0 && name[|name| - 1] == ' ') {
        sb.Append(" ");
        AppendAssoc(s2, name, " ");
      }
      FormatInto(tree.right, rightPrec, dump, sb);
      ghost var l := Rendered(tree.left, leftPrec, dump, operators, variablePrefix);
      ghost var r := Rendered(tree.right, rightPrec, dump, operators, variablePrefix);
      AppendAssoc(s1, l, Infix(name));
      AppendAssoc(s1, l + Infix(name), r);
    }

    /** quoteAtomIfRequired(s): scans for a ' and for every operator name. */
    method QuoteAtomIfRequired(s: string) returns (r: string)
      ensures r == QuotedAtom(s, operators)
    {
      if s != [] {
        var quote := false;
        if '\'' in s {
          quote := true;
        }
        for k := 0 to |operators|
          invariant quote <==> '\'' in s || exists j :: 0 <= j < k && Contains(s, operators[j].name)
        {
          if Contains(s, operators[k].name) {
            quote := true;
          }
        }
        r := if quote then Quote(Double(s, '%'), '\'') else s;
      } else {
        r := "()";
      }
    }
  }

  /** display(node): formats with the operator table and without quoting. */
  method Display(node: Term, termOps: seq<Operator>, variablePrefix: string) returns (r: string)
    ensures r == Rendered(node, 0, false, termOps, variablePrefix)
  {
    var f := new Formatter(termOps, variablePrefix);
    r := f.Format(node, false);
  }

  /** dump(node): formats with the operator table, quoting where needed. */
  method Dump(node: Term, termOps: seq<Operator>, variablePrefix: string) returns (r: string)
    ensures r == Rendered(node, 0, true, termOps, variablePrefix)
  {
    var f := new Formatter(termOps, variablePrefix);
    r := f.Format(node, true);
  }
}
