/** The evaluator: a walk over the syntax tree under an assignment of truth
    values, and `evaluateExpression`, which tokenizes, parses and evaluates. */
module Evaluator {
  import opened Results
  import opened Tokenizer
  import opened Syntax
  import opened Parser

  /** The value of a variable; one missing from the assignment reads as false. */
  function Lookup(env: map<string, bool>, name: string): bool {
    if name in env then env[name] else false
  }

  /** `evaluateAst`, with a missing variable read as false throughout. */
  function Eval(a: Ast, env: map<string, bool>): bool {
    match a
    case Empty => false
    case Var(n) => Lookup(env, n)
    case Negation(c) => !Eval(c, env)
    case Binary(op, l, r) =>
      var lv := Eval(l, env);
      var rv := Eval(r, env);
      match op
      case And => lv && rv
      case Or => lv || rv
      case Implies => !lv || rv
      case Xor => (!lv && rv) || (lv && !rv)
      case Iff => lv == rv
  }

  /** The JavaScript values `evaluateAst` can produce: a boolean, or `undefined`
      for a variable the assignment does not hold. */
  datatype JsValue = JsBool(b: bool) | Undefined

  predicate Truthy(v: JsValue) {
    v == JsBool(true)
  }

  /** JavaScript's `!v`. */
  function JsNot(v: JsValue): JsValue {
    JsBool(!Truthy(v))
  }

  /** JavaScript's `l && r`: the left operand if it is falsy, else the right one. */
  function JsAnd(l: JsValue, r: JsValue): JsValue {
    if Truthy(l) then r else l
  }

  /** JavaScript's `l || r`: the left operand if it is truthy, else the right one. */
  function JsOr(l: JsValue, r: JsValue): JsValue {
    if Truthy(l) then l else r
  }

  /** `evaluateAst` as the source computes it: a missing variable is `undefined`,
      the connectives are JavaScript's, and `<->` compares with `===`. */
  function EvalAsWritten(a: Ast, env: map<string, bool>): JsValue {
    match a
    case Empty => JsBool(false)
    case Var(n) => if n in env then JsBool(env[n]) else Undefined
    case Negation(c) => JsNot(EvalAsWritten(c, env))
    case Binary(op, l, r) =>
      var lv := EvalAsWritten(l, env);
      var rv := EvalAsWritten(r, env);
      match op
      case And => JsAnd(lv, rv)
      case Or => JsOr(lv, rv)
      case Implies => JsOr(JsNot(lv), rv)
      case Xor => JsOr(JsAnd(JsNot(lv), rv), JsAnd(lv, JsNot(rv)))
      case Iff => JsBool(lv == rv)
  }

  /** `evaluateExpression` with both corrections: the parser resumes at the
      caller's precedence, and a missing variable reads as false. */
  function EvaluateExpression(expression: string, env: map<string, bool>): Result<bool, Error> {
    var root :- ParseExpression(Corrected, expression);
    Ok(Eval(root, env))
  }

  /** `evaluateExpression` as the source computes it. */
  function EvaluateExpressionAsWritten(expression: string, env: map<string, bool>): Result<JsValue, Error> {
    var root :- ParseExpression(AsWritten, expression);
    Ok(EvalAsWritten(root, env))
  }

  // ----- Truth functions -----

  /** The empty tree is false, `~` inverts, and each operator is its connective. */
  lemma Connectives(op: Op, l: Ast, r: Ast, env: map<string, bool>)
    ensures !Eval(Empty, env)
    ensures Eval(Negation(l), env) == !Eval(l, env)
    ensures Eval(Binary(op, l, r), env) ==
      match op
      case And => Eval(l, env) && Eval(r, env)
      case Or => Eval(l, env) || Eval(r, env)
      case Implies => Eval(l, env) ==> Eval(r, env)
      case Xor => Eval(l, env) != Eval(r, env)
      case Iff => Eval(l, env) == Eval(r, env)
  {
  }

  /** The value depends only on the variables that occur in the tree. */
  lemma {:induction false} EvalDependsOnFreeVars(a: Ast, env1: map<string, bool>, env2: map<string, bool>)
    requires forall v :: v in FreeVars(a) ==> Lookup(env1, v) == Lookup(env2, v)
    ensures Eval(a, env1) == Eval(a, env2)
  {
    match a
    case Empty =>
    case Var(_) =>
    case Negation(c) => EvalDependsOnFreeVars(c, env1, env2);
    case Binary(_, l, r) =>
      EvalDependsOnFreeVars(l, env1, env2);
      EvalDependsOnFreeVars(r, env1, env2);
  }

  /** A variable missing from the assignment behaves exactly as one bound to false. */
  lemma MissingIsFalse(a: Ast, env: map<string, bool>, x: string)
    requires x !in env
    ensures Eval(a, env) == Eval(a, env[x := false])
  {
    forall v | v in FreeVars(a)
      ensures Lookup(env, v) == Lookup(env[x := false], v)
    {
    }
    EvalDependsOnFreeVars(a, env, env[x := false]);
  }

  // ----- The source's three-valued evaluation -----

  /** When the assignment holds every variable of the tree, the source's
      evaluation is the boolean `Eval` computes. */
  lemma {:induction false} AsWrittenWhenBound(a: Ast, env: map<string, bool>)
    requires FreeVars(a) <= env.Keys
    ensures EvalAsWritten(a, env) == JsBool(Eval(a, env))
  {
    match a
    case Empty =>
    case Var(_) =>
    case Negation(c) => AsWrittenWhenBound(c, env);
    case Binary(_, l, r) =>
      AsWrittenWhenBound(l, env);
      AsWrittenWhenBound(r, env);
  }

  /** Without `<->`, a missing variable behaves as false: the source's result is
      truthy exactly when `Eval` is true. */
  lemma {:induction false} AsWrittenTruthyWithoutIff(a: Ast, env: map<string, bool>)
    requires !HasIff(a)
    ensures Truthy(EvalAsWritten(a, env)) == Eval(a, env)
  {
    match a
    case Empty =>
    case Var(_) =>
    case Negation(c) => AsWrittenTruthyWithoutIff(c, env);
    case Binary(_, l, r) =>
      AsWrittenTruthyWithoutIff(l, env);
      AsWrittenTruthyWithoutIff(r, env);
  }

  /** In `a <-> 1` the table only binds the letter `a`. With `a` false the
      source compares `false` with `undefined` and finds the expression false,
      where binding `1` to false would make it true; `Eval` gives true. */
  lemma IffWithMissingVariable()
    ensures var t := Binary(Iff, Var("a"), Var("1"));
      && EvalAsWritten(t, map["a" := false]) == JsBool(false)
      && EvalAsWritten(t, map["a" := false, "1" := false]) == JsBool(true)
      && Eval(t, map["a" := false])
  {
  }

  // ----- Whole expressions -----

  /** An expression that is empty or all whitespace evaluates to false. */
  lemma BlankIsFalse(s: string, env: map<string, bool>)
    requires StripWhitespace(s) == ""
    ensures EvaluateExpression(s, env) == Ok(false)
    ensures EvaluateExpressionAsWritten(s, env) == Ok(JsBool(false))
  {
    ParseBlank(Corrected, s, Empty, 0);
    ParseBlank(AsWritten, s, Empty, 0);
  }

  /** A tokenizer error is the error of the whole evaluation. */
  lemma MalformedIsError(s: string, env: map<string, bool>)
    requires Tokens(s).Err?
    ensures EvaluateExpression(s, env) == Err(Malformed(Tokens(s).error))
    ensures EvaluateExpressionAsWritten(s, env) == Err(Malformed(Tokens(s).error))
  {
  }

  /** An expression whose tokens are `Flat` always evaluates, in the source and
      in the corrected parser, and both trees keep its tokens in order. */
  lemma FlatEvaluates(s: string, env: map<string, bool>)
    requires Tokens(s).Ok? && Flat(Tokens(s).value)
    ensures EvaluateExpression(s, env).Ok? && EvaluateExpressionAsWritten(s, env).Ok?
    ensures ParseExpression(Corrected, s).Ok? && Yield(ParseExpression(Corrected, s).value) == Tokens(s).value
    ensures ParseExpression(AsWritten, s).Ok? && Yield(ParseExpression(AsWritten, s).value) == Tokens(s).value
  {
    ParsesFlat(Corrected, Tokens(s).value);
    ParsesFlat(AsWritten, Tokens(s).value);
  }

  /** Parsing an expression is parsing its tokens from an empty tree at precedence 0. */
  lemma ParseOfTokens(mode: Mode, s: string, ts: seq<string>, t: Ast)
    requires Tokens(s) == Ok(ts) && Parse(mode, Empty, ts, 0) == Ok((t, []))
    ensures ParseExpression(mode, s) == Ok(t)
  {
  }

  /** The source's tree of `a|b&c->d`. */
  lemma MisnestedTreeAsWritten(ts: seq<string>)
    requires ts == ["a", "|", "b", "&", "c", "->", "d"]
    ensures Parse(AsWritten, Empty, ts, 0) ==
      Ok((Binary(Or, Var("a"), Binary(Implies, Binary(And, Var("b"), Var("c")), Var("d"))), []))
  {
    assert Plain("a") && Plain("b") && Plain("c") && Plain("d");
    assert ts == ["a", Symbol(Or), "b", Symbol(And), "c", Symbol(Implies), "d"];
    FourOperands(AsWritten, "a", Or, "b", And, "c", Implies, "d");
  }

  /** The corrected parser's tree of `a|b&c->d`. */
  lemma MisnestedTreeCorrected(ts: seq<string>)
    requires ts == ["a", "|", "b", "&", "c", "->", "d"]
    ensures Parse(Corrected, Empty, ts, 0) ==
      Ok((Binary(Implies, Binary(Or, Var("a"), Binary(And, Var("b"), Var("c"))), Var("d")), []))
  {
    assert Plain("a") && Plain("b") && Plain("c") && Plain("d");
    assert ts == ["a", Symbol(Or), "b", Symbol(And), "c", Symbol(Implies), "d"];
    FourOperands(Corrected, "a", Or, "b", And, "c", Implies, "d");
  }

  /** The two trees of `a|b&c->d`: the source's `a | ((b & c) -> d)` and the
      intended `(a | (b & c)) -> d`. */
  lemma MisnestedTrees()
    ensures ParseExpression(AsWritten, "a|b&c->d") ==
      Ok(Binary(Or, Var("a"), Binary(Implies, Binary(And, Var("b"), Var("c")), Var("d"))))
    ensures ParseExpression(Corrected, "a|b&c->d") ==
      Ok(Binary(Implies, Binary(Or, Var("a"), Binary(And, Var("b"), Var("c"))), Var("d")))
  {
    var ts := ["a", "|", "b", "&", "c", "->", "d"];
    OperatorsExample();
    MisnestedTreeAsWritten(ts);
    MisnestedTreeCorrected(ts);
    ParseOfTokens(AsWritten, "a|b&c->d", ts,
      Binary(Or, Var("a"), Binary(Implies, Binary(And, Var("b"), Var("c")), Var("d"))));
    ParseOfTokens(Corrected, "a|b&c->d", ts,
      Binary(Implies, Binary(Or, Var("a"), Binary(And, Var("b"), Var("c"))), Var("d")));
  }

  /** Evaluating an expression is evaluating its tree. */
  lemma EvaluateTree(s: string, env: map<string, bool>, t: Ast, u: Ast)
    requires ParseExpression(Corrected, s) == Ok(t) && ParseExpression(AsWritten, s) == Ok(u)
    ensures EvaluateExpression(s, env) == Ok(Eval(t, env))
    ensures EvaluateExpressionAsWritten(s, env) == Ok(EvalAsWritten(u, env))
  {
  }

  /** The values of the two trees of `a|b&c->d` with `a` true and the rest false. */
  lemma MisnestedValues()
    ensures var env := map["a" := true, "b" := false, "c" := false, "d" := false];
      var bc := Binary(And, Var("b"), Var("c"));
      EvalAsWritten(Binary(Or, Var("a"), Binary(Implies, bc, Var("d"))), env) == JsBool(true)
      && !Eval(Binary(Implies, Binary(Or, Var("a"), bc), Var("d")), env)
  {
    var env := map["a" := true, "b" := false, "c" := false, "d" := false];
    var bc := Binary(And, Var("b"), Var("c"));
    assert "a" in env && env["a"] && "b" in env && !env["b"] && "c" in env && !env["c"] && "d" in env && !env["d"];
    assert EvalAsWritten(bc, env) == JsBool(false);
    assert EvalAsWritten(Binary(Implies, bc, Var("d")), env) == JsBool(true);
    assert Eval(Binary(Or, Var("a"), bc), env);
  }

  /** `a|b&c->d` with `a` true and the rest false: the source's tree is true, the
      intended one is false. */
  lemma MisnestingChangesValue()
    ensures var env := map["a" := true, "b" := false, "c" := false, "d" := false];
      EvaluateExpressionAsWritten("a|b&c->d", env) == Ok(JsBool(true))
      && EvaluateExpression("a|b&c->d", env) == Ok(false)
  {
    MisnestedTrees();
    MisnestedValues();
    var bc := Binary(And, Var("b"), Var("c"));
    EvaluateTree("a|b&c->d", map["a" := true, "b" := false, "c" := false, "d" := false],
      Binary(Implies, Binary(Or, Var("a"), bc), Var("d")), Binary(Or, Var("a"), Binary(Implies, bc, Var("d"))));
  }
}
