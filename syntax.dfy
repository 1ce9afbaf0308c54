/** Operators, their precedence table, and the syntax tree the parser builds. */
module Syntax {
  import opened Results

  datatype Op = And | Xor | Or | Implies | Iff

  /** The precedence table: a higher number binds tighter. */
  function Precedence(op: Op): nat {
    match op
    case And => 4
    case Xor => 3
    case Or => 2
    case Implies => 1
    case Iff => 0
  }

  function Symbol(op: Op): string {
    match op
    case And => "&"
    case Xor => "^"
    case Or => "|"
    case Implies => "->"
    case Iff => "<->"
  }

  /** The operator a token names, if it is a key of the precedence table. */
  function OperatorOf(t: string): (r: Option<Op>)
    ensures forall op :: r == Some(op) <==> t == Symbol(op)
  {
    if t == "&" then Some(And)
    else if t == "^" then Some(Xor)
    else if t == "|" then Some(Or)
    else if t == "->" then Some(Implies)
    else if t == "<->" then Some(Iff)
    else None
  }

  /** The syntax tree; `Empty` is the source's `null` node. */
  datatype Ast = Empty | Var(name: string) | Negation(child: Ast) | Binary(op: Op, left: Ast, right: Ast)

  /** The variable names that occur in a tree. */
  function FreeVars(a: Ast): set<string> {
    match a
    case Empty => {}
    case Var(n) => {n}
    case Negation(c) => FreeVars(c)
    case Binary(_, l, r) => FreeVars(l) + FreeVars(r)
  }

  /** Whether `<->` occurs in a tree. */
  predicate HasIff(a: Ast) {
    match a
    case Empty => false
    case Var(_) => false
    case Negation(c) => HasIff(c)
    case Binary(op, l, r) => op == Iff || HasIff(l) || HasIff(r)
  }
}
