/**
 * The term graph shared by the executors and the formatter: atoms, integers,
 * strings, binary operator trees and logic variables (references).
 *
 * A reference carries its current binding, so a bound reference chain is a
 * finite value here; the cyclic bindings the unifier can create are not
 * expressible.
 */
module Terms {
  import opened Wrappers

  /** The associativity of an infix operator. */
  datatype Assoc = LEFT | RIGHT | NONE

  /** An infix operator of the operator table: its spelling, precedence and associativity. */
  datatype Operator = Operator(name: string, precedence: int, assoc: Assoc)

  datatype Term =
    | Atom(name: string)
    | Int(number: int)
    | Str(value: string)
    | Tree(operator: Operator, left: Term, right: Term)
    | Reference(id: int, target: Option<Term>)

  /** Number of nodes, counting the nodes reachable through a bound reference. */
  function Size(t: Term): (n: nat)
    ensures n >= 1
  {
    match t
    case Tree(_, l, r) => 1 + Size(l) + Size(r)
    case Reference(_, Some(v)) => 1 + Size(v)
    case _ => 1
  }

  /**
   * Node.finalNode(): follows bound references to the end of the chain. The
   * result is never a bound reference and never larger than the start.
   */
  function FinalNode(t: Term): (r: Term)
    ensures !(r.Reference? && r.target.Some?)
    ensures Size(r) <= Size(t)
    ensures !t.Reference? ==> r == t
  {
    match t
    case Reference(_, Some(v)) => FinalNode(v)
    case _ => t
  }

  /**
   * Tree.decompose(node, op): the tree at the end of node's reference chain
   * when it is built with operator op, and None otherwise.
   */
  function Decompose(node: Term, op: Operator): (r: Option<Term>)
    ensures r.Some? ==> r.value.Tree? && r.value.operator == op
    ensures r.Some? ==> Size(r.value.left) < Size(node) && Size(r.value.right) < Size(node)
    ensures r.None? <==> !(FinalNode(node).Tree? && FinalNode(node).operator == op)
  {
    var n := FinalNode(node);
    if n.Tree? && n.operator == op then Some(n) else None
  }

  /** TermOp.find(name): the first operator of the table spelt name. */
  function FindOperator(operators: seq<Operator>, name: string): (r: Option<Operator>)
    ensures r.Some? ==> r.value in operators && r.value.name == name
    ensures r.None? ==> forall k :: 0 <= k < |operators| ==> operators[k].name != name
  {
    if operators == [] then None
    else if operators[0].name == name then Some(operators[0])
    else FindOperator(operators[1..], name)
  }
}
