/** The precedence-climbing parser: `Parse` walks the token list with the tree
    built so far and a minimum precedence, and re-tokenizes and re-parses every
    group token it meets. */
module Parser {
  import opened Results
  import opened Tokenizer
  import opened Syntax

  /** Why parsing stops: a malformed operator inside the text being tokenized, or
      a `~` with no token after it (a `TypeError` in the source). */
  datatype Error = Malformed(cause: TokenError) | MissingOperand

  /** Where `HandleOperator` resumes after building a node: the source resumes at
      precedence 0; `Corrected` resumes at the precedence it was called with. */
  datatype Mode = AsWritten | Corrected

  function Resume(mode: Mode, prec: nat): nat {
    match mode
    case AsWritten => 0
    case Corrected => prec
  }

  /** The number of characters in a token list. */
  function Chars(ts: seq<string>): nat {
    |Concat(ts)|
  }

  /** `tokenize` from the parser's side: its error becomes a parse error. */
  function LexTokens(s: string): (r: Result<seq<string>, Error>)
    ensures r.Ok? <==> Tokens(s).Ok?
    ensures r.Ok? ==> r.value == Tokens(s).value && Chars(r.value) <= |s|
    ensures r.Err? ==> r.error == Malformed(Tokens(s).error)
  {
    TokensShorter(s);
    match Tokens(s)
    case Ok(ts) => Ok(ts)
    case Err(e) => Err(Malformed(e))
  }

  predicate IsSuffix(u: seq<string>, ts: seq<string>) {
    |u| <= |ts| && u == ts[|ts| - |u|..]
  }

  predicate StartsGroup(t: string) {
    |t| > 0 && t[0] == '('
  }

  /** `token.slice(1, -1)`: the token without its first and last character. */
  function Inner(t: string): (r: string)
    ensures |t| >= 1 ==> |r| < |t|
  {
    if |t| >= 2 then t[1..|t| - 1] else ""
  }

  lemma {:induction false} SuffixChars(u: seq<string>, ts: seq<string>)
    requires IsSuffix(u, ts)
    ensures Chars(u) <= Chars(ts)
    decreases |ts|
  {
    if |u| < |ts| {
      assert ts[1..][|ts| - 1 - |u|..] == ts[|ts| - |u|..];
      SuffixChars(u, ts[1..]);
    } else {
      assert ts[|ts| - |u|..] == ts;
    }
  }

  lemma SuffixTrans(u: seq<string>, v: seq<string>, ts: seq<string>)
    requires IsSuffix(u, v) && IsSuffix(v, ts)
    ensures IsSuffix(u, ts)
  {
    assert ts[|ts| - |v|..][|v| - |u|..] == ts[|ts| - |u|..];
  }

  /** The source's `parse(root, tokens, precedence)`: the tree and the tokens left over. */
  function Parse(mode: Mode, root: Ast, tokens: seq<string>, prec: nat): (r: Result<(Ast, seq<string>), Error>)
    ensures r.Ok? ==> IsSuffix(r.value.1, tokens)
    decreases Chars(tokens), |tokens|, 1
  {
    if |tokens| == 0 then Ok((root, []))
    else if tokens[0] == "~" then HandleNegation(mode, tokens, prec)
    else if OperatorOf(tokens[0]).Some? then HandleOperator(mode, root, tokens, prec)
    else HandleToken(mode, tokens, prec)
  }

  /** `~` wraps the single next token; the tree built so far is dropped. */
  function HandleNegation(mode: Mode, tokens: seq<string>, prec: nat): (r: Result<(Ast, seq<string>), Error>)
    requires |tokens| >= 1 && tokens[0] == "~"
    ensures r.Ok? ==> IsSuffix(r.value.1, tokens)
    decreases Chars(tokens), |tokens|, 0
  {
    if |tokens| == 1 then Err(MissingOperand)
    else
      assert tokens[1..][1..] == tokens[2..];
      assert Concat(tokens) == tokens[0] + Concat(tokens[1..]);
      assert Concat(tokens[1..]) == tokens[1] + Concat(tokens[2..]);
      assert |tokens[0]| == 1;
      var child :- ParseToken(mode, tokens[1]);
      var r := Parse(mode, Negation(child), tokens[2..], prec);
      if r.Ok? then SuffixTrans(r.value.1, tokens[2..], tokens); r else r
  }

  /** An operator below the minimum precedence is handed back unconsumed; otherwise
      its right operand is parsed at its own precedence and the node it builds
      becomes the tree so far. */
  function HandleOperator(mode: Mode, root: Ast, tokens: seq<string>, prec: nat): (r: Result<(Ast, seq<string>), Error>)
    requires |tokens| >= 1 && OperatorOf(tokens[0]).Some?
    ensures r.Ok? ==> IsSuffix(r.value.1, tokens)
    decreases Chars(tokens), |tokens|, 0
  {
    var op := OperatorOf(tokens[0]).value;
    if Precedence(op) < prec then Ok((root, tokens))
    else
      var right :- Parse(mode, Empty, tokens[1..], Precedence(op));
      SuffixTrans(right.1, tokens[1..], tokens);
      SuffixChars(right.1, tokens);
      var r := Parse(mode, Binary(op, root, right.0), right.1, Resume(mode, prec));
      if r.Ok? then SuffixTrans(r.value.1, right.1, tokens); r else r
  }

  /** A single token as a tree: a group is stripped of its parentheses,
      re-tokenized and parsed; anything else is a variable. */
  function ParseToken(mode: Mode, token: string): Result<Ast, Error>
    decreases |token|, 0, 1
  {
    if StartsGroup(token) then ParseGroup(mode, token) else Ok(Var(token))
  }

  /** The group case of `parseToken`: the text inside the parentheses is
      tokenized and parsed from an empty tree at precedence 0. */
  function ParseGroup(mode: Mode, token: string): Result<Ast, Error>
    requires StartsGroup(token)
    decreases |token|, 0, 0
  {
    var inner :- LexTokens(Inner(token));
    var group :- Parse(mode, Empty, inner, 0);
    Ok(group.0)
  }

  /** A plain or group token replaces the tree built so far. */
  function HandleToken(mode: Mode, tokens: seq<string>, prec: nat): (r: Result<(Ast, seq<string>), Error>)
    requires |tokens| >= 1
    ensures r.Ok? ==> IsSuffix(r.value.1, tokens)
    decreases Chars(tokens), |tokens|, 0
  {
    SuffixChars(tokens[1..], tokens);
    var node :- ParseToken(mode, tokens[0]);
    var r := Parse(mode, node, tokens[1..], prec);
    if r.Ok? then SuffixTrans(r.value.1, tokens[1..], tokens); r else r
  }

  /** Lines 57-58 of `evaluateExpression`: tokenize, then parse from an empty
      tree at precedence 0 and keep the tree. */
  function ParseExpression(mode: Mode, s: string): Result<Ast, Error> {
    var tokens :- LexTokens(s);
    var parsed :- Parse(mode, Empty, tokens, 0);
    Ok(parsed.0)
  }

  // ----- What the parser promises -----

  /** A token that is parsed as a variable. */
  predicate Plain(t: string) {
    t != "~" && OperatorOf(t).None? && !StartsGroup(t)
  }

  /** At precedence 0 no operator is handed back, so parsing consumes every token. */
  lemma {:induction false} ParseConsumesAll(mode: Mode, root: Ast, tokens: seq<string>)
    ensures Parse(mode, root, tokens, 0).Ok? ==> Parse(mode, root, tokens, 0).value.1 == []
    decreases Chars(tokens), |tokens|
  {
    if |tokens| == 0 {
    } else if tokens[0] == "~" {
      if |tokens| > 1 {
        assert Concat(tokens) == tokens[0] + Concat(tokens[1..]);
        assert tokens[1..][1..] == tokens[2..];
        SuffixChars(tokens[2..], tokens[1..]);
        var child := ParseToken(mode, tokens[1]);
        if child.Ok? {
          ParseConsumesAll(mode, Negation(child.value), tokens[2..]);
        }
      }
    } else if OperatorOf(tokens[0]).Some? {
      var op := OperatorOf(tokens[0]).value;
      var right := Parse(mode, Empty, tokens[1..], Precedence(op));
      if right.Ok? {
        SuffixTrans(right.value.1, tokens[1..], tokens);
        SuffixChars(right.value.1, tokens);
        ParseConsumesAll(mode, Binary(op, root, right.value.0), right.value.1);
      }
    } else {
      SuffixChars(tokens[1..], tokens);
      var node := ParseToken(mode, tokens[0]);
      if node.Ok? {
        ParseConsumesAll(mode, node.value, tokens[1..]);
      }
    }
  }

  /** An empty token list gives back the tree built so far; an expression that is
      empty or all whitespace parses to the empty tree. */
  lemma ParseBlank(mode: Mode, s: string, root: Ast, prec: nat)
    requires StripWhitespace(s) == ""
    ensures Parse(mode, root, [], prec) == Ok((root, []))
    ensures ParseExpression(mode, s) == Ok(Empty)
  {
    TokensOfBlank(s);
  }

  /** A token that is not an operator discards the tree built so far: the result
      does not depend on it. */
  lemma ParseDropsRoot(mode: Mode, root: Ast, tokens: seq<string>, prec: nat)
    requires |tokens| >= 1 && OperatorOf(tokens[0]).None?
    ensures Parse(mode, root, tokens, prec) == Parse(mode, Empty, tokens, prec)
  {
  }

  /** Two operands in a row: the second replaces the first. */
  lemma AdjacentOperands(mode: Mode, x: string, y: string)
    requires Plain(x) && Plain(y)
    ensures Parse(mode, Empty, [x, y], 0) == Ok((Var(y), []))
  {
    assert [x, y][1..] == [y] && [y][1..] == [];
    assert ParseToken(mode, x) == Ok(Var(x)) && ParseToken(mode, y) == Ok(Var(y));
    assert HandleToken(mode, [y], 0) == Parse(mode, Var(y), [], 0);
    assert HandleToken(mode, [x, y], 0) == Parse(mode, Var(x), [y], 0);
  }

  /** A group token parses to the same tree as the text inside it. */
  lemma GroupIsTransparent(mode: Mode, e: string)
    ensures ParseToken(mode, "(" + e + ")") == ParseExpression(mode, e)
  {
    assert Inner("(" + e + ")") == e;
  }

  /** `~` takes exactly the next token, which it parses on its own. */
  lemma NegationTakesOneToken(mode: Mode, root: Ast, t: string, rest: seq<string>, prec: nat)
    ensures ParseToken(mode, t).Err? ==> Parse(mode, root, ["~", t] + rest, prec) == Err(ParseToken(mode, t).error)
    ensures ParseToken(mode, t).Ok? ==>
      Parse(mode, root, ["~", t] + rest, prec) == Parse(mode, Negation(ParseToken(mode, t).value), rest, prec)
  {
    assert (["~", t] + rest)[1] == t;
    assert (["~", t] + rest)[2..] == rest;
  }

  /** A final `~` has no operand. */
  lemma NegationWithoutOperand(mode: Mode, root: Ast, prec: nat)
    ensures Parse(mode, root, ["~"], prec) == Err(MissingOperand)
  {
  }

  /** An operator with nothing after it is not an error: its right operand is
      the empty tree. */
  lemma DanglingOperator(mode: Mode, x: string, op: Op)
    requires Plain(x)
    ensures Parse(mode, Empty, [x, Symbol(op)], 0) == Ok((Binary(op, Var(x), Empty), []))
  {
    PlainStep(mode, Empty, x, [Symbol(op)], 0);
    assert [x] + [Symbol(op)] == [x, Symbol(op)];
    OperatorStep(mode, Var(x), op, [], 0);
    assert [Symbol(op)] + [] == [Symbol(op)];
  }

  lemma PlainStep(mode: Mode, root: Ast, t: string, rest: seq<string>, prec: nat)
    requires Plain(t)
    ensures Parse(mode, root, [t] + rest, prec) == Parse(mode, Var(t), rest, prec)
  {
    var ts := [t] + rest;
    assert ts[0] == t && ts[1..] == rest;
    assert ParseToken(mode, t) == Ok(Var(t));
    assert HandleToken(mode, ts, prec) == Parse(mode, Var(t), rest, prec);
  }

  lemma OperatorStep(mode: Mode, root: Ast, op: Op, rest: seq<string>, prec: nat)
    ensures Precedence(op) < prec ==> Parse(mode, root, [Symbol(op)] + rest, prec) == Ok((root, [Symbol(op)] + rest))
    ensures Precedence(op) >= prec && Parse(mode, Empty, rest, Precedence(op)).Err? ==>
      Parse(mode, root, [Symbol(op)] + rest, prec) == Err(Parse(mode, Empty, rest, Precedence(op)).error)
    ensures Precedence(op) >= prec && Parse(mode, Empty, rest, Precedence(op)).Ok? ==>
      var right := Parse(mode, Empty, rest, Precedence(op)).value;
      Parse(mode, root, [Symbol(op)] + rest, prec) == Parse(mode, Binary(op, root, right.0), right.1, Resume(mode, prec))
  {
    assert ([Symbol(op)] + rest)[1..] == rest;
    assert OperatorOf(Symbol(op)) == Some(op);
  }

  /** An operand and an operator the minimum precedence lets through: the node of
      the two operands is built and parsing continues after the right operand. */
  lemma OperandOperator(mode: Mode, y: string, o: Op, rest: seq<string>, prec: nat)
    requires Plain(y) && Precedence(o) >= prec && Parse(mode, Empty, rest, Precedence(o)).Ok?
    ensures var right := Parse(mode, Empty, rest, Precedence(o)).value;
      Parse(mode, Empty, [y, Symbol(o)] + rest, prec) ==
      Parse(mode, Binary(o, Var(y), right.0), right.1, Resume(mode, prec))
  {
    assert [y, Symbol(o)] + rest == [y] + ([Symbol(o)] + rest);
    PlainStep(mode, Empty, y, [Symbol(o)] + rest, prec);
    OperatorStep(mode, Var(y), o, rest, prec);
  }

  /** The right operand of the first operator, parsed at its precedence. */
  lemma RightOperand(mode: Mode, y: string, o2: Op, z: string, p1: nat)
    requires Plain(y) && Plain(z)
    ensures Parse(mode, Empty, [y, Symbol(o2), z], p1) ==
      if Precedence(o2) < p1 then Ok((Var(y), [Symbol(o2), z]))
      else Ok((Binary(o2, Var(y), Var(z)), []))
  {
    assert [y, Symbol(o2), z] == [y] + [Symbol(o2), z];
    assert [Symbol(o2), z] == [Symbol(o2)] + [z];
    PlainStep(mode, Empty, y, [Symbol(o2), z], p1);
    OperatorStep(mode, Var(y), o2, [z], p1);
    PlainStep(mode, Empty, z, [], Precedence(o2));
    assert [z] == [z] + [];
  }

  lemma FirstOperator(mode: Mode, x: string, o1: Op, rest: seq<string>)
    requires Plain(x)
    ensures Parse(mode, Empty, [x, Symbol(o1)] + rest, 0) == Parse(mode, Var(x), [Symbol(o1)] + rest, 0)
  {
    assert [x, Symbol(o1)] + rest == [x] + ([Symbol(o1)] + rest);
    PlainStep(mode, Empty, x, [Symbol(o1)] + rest, 0);
  }

  /** A final operator and operand complete the tree built so far. */
  lemma LastOperand(mode: Mode, left: Ast, o: Op, z: string, prec: nat)
    requires Plain(z) && Precedence(o) >= prec
    ensures Parse(mode, left, [Symbol(o), z], prec) == Ok((Binary(o, left, Var(z)), []))
  {
    assert [Symbol(o), z] == [Symbol(o)] + [z];
    OperatorStep(mode, left, o, [z], prec);
    assert [z] == [z] + [];
    PlainStep(mode, Empty, z, [], Precedence(o));
  }

  lemma LooserFirst(mode: Mode, x: string, o1: Op, y: string, o2: Op, z: string)
    requires Plain(x) && Plain(y) && Plain(z) && Precedence(o1) <= Precedence(o2)
    ensures Parse(mode, Empty, [x, Symbol(o1), y, Symbol(o2), z], 0) ==
      Ok((Binary(o1, Var(x), Binary(o2, Var(y), Var(z))), []))
  {
    var rest := [y, Symbol(o2), z];
    var tree := Binary(o1, Var(x), Binary(o2, Var(y), Var(z)));
    assert [x, Symbol(o1), y, Symbol(o2), z] == [x, Symbol(o1)] + rest;
    FirstOperator(mode, x, o1, rest);
    RightOperand(mode, y, o2, z, Precedence(o1));
    assert Parse(mode, Empty, rest, Precedence(o1)) == Ok((Binary(o2, Var(y), Var(z)), []));
    OperatorStep(mode, Var(x), o1, rest, 0);
    assert Parse(mode, Var(x), [Symbol(o1)] + rest, 0) == Parse(mode, tree, [], Resume(mode, 0));
  }

  lemma TighterFirst(mode: Mode, x: string, o1: Op, y: string, o2: Op, z: string)
    requires Plain(x) && Plain(y) && Plain(z) && Precedence(o1) > Precedence(o2)
    ensures Parse(mode, Empty, [x, Symbol(o1), y, Symbol(o2), z], 0) ==
      Ok((Binary(o2, Binary(o1, Var(x), Var(y)), Var(z)), []))
  {
    var rest := [y, Symbol(o2), z];
    assert [x, Symbol(o1), y, Symbol(o2), z] == [x, Symbol(o1)] + rest;
    FirstOperator(mode, x, o1, rest);
    OperatorStep(mode, Var(x), o1, rest, 0);
    RightOperand(mode, y, o2, z, Precedence(o1));
    LastOperand(mode, Binary(o1, Var(x), Var(y)), o2, z, 0);
  }

  /** Higher precedence binds tighter, and an operator of equal precedence is
      absorbed into the right operand: `a | b & c` is `a | (b & c)`, `a & b | c` is
      `(a & b) | c`, and `a -> b -> c` is `a -> (b -> c)`. */
  lemma ThreeOperands(mode: Mode, x: string, o1: Op, y: string, o2: Op, z: string)
    requires Plain(x) && Plain(y) && Plain(z)
    ensures Parse(mode, Empty, [x, Symbol(o1), y, Symbol(o2), z], 0) ==
      Ok((if Precedence(o1) > Precedence(o2)
          then Binary(o2, Binary(o1, Var(x), Var(y)), Var(z))
          else Binary(o1, Var(x), Binary(o2, Var(y), Var(z))), []))
  {
    if Precedence(o1) > Precedence(o2) {
      TighterFirst(mode, x, o1, y, o2, z);
    } else {
      LooserFirst(mode, x, o1, y, o2, z);
    }
  }

  // ----- Precedence climbing on expressions without parentheses -----

  /** The tokens a tree stands for, read left to right. */
  function Yield(a: Ast): seq<string> {
    match a
    case Empty => []
    case Var(n) => [n]
    case Negation(c) => ["~"] + Yield(c)
    case Binary(op, l, r) => Yield(l) + [Symbol(op)] + Yield(r)
  }

  /** The nesting the precedence table asks for: an operator's left operand is
      built from operators that bind strictly tighter, its right operand from
      operators that bind at least as tightly (so equal precedence nests to the right). */
  predicate Ordered(a: Ast) {
    match a
    case Empty => true
    case Var(_) => true
    case Negation(c) => Ordered(c)
    case Binary(op, l, r) =>
      Ordered(l) && Ordered(r)
      && (l.Binary? ==> Precedence(l.op) > Precedence(op))
      && (r.Binary? ==> Precedence(r.op) >= Precedence(op))
  }

  /** How many tokens an operand takes at the front of `ts`: a plain token, or
      `~` and a plain token; 0 if there is no operand there. */
  function OperandLength(ts: seq<string>): nat {
    if |ts| >= 1 && Plain(ts[0]) then 1
    else if |ts| >= 2 && ts[0] == "~" && Plain(ts[1]) then 2
    else 0
  }

  function Leaf(ts: seq<string>): Ast
    requires OperandLength(ts) > 0
  {
    if OperandLength(ts) == 1 then Var(ts[0]) else Negation(Var(ts[1]))
  }

  /** Operators each followed by an operand. */
  predicate OperatorTail(r: seq<string>)
    decreases |r|
  {
    |r| == 0 ||
    (OperatorOf(r[0]).Some? && OperandLength(r[1..]) > 0
     && OperatorTail(r[1 + OperandLength(r[1..])..]))
  }

  /** An expression without parentheses in which operands (a plain token, or
      `~` and a plain token) alternate with operators. */
  predicate Flat(ts: seq<string>) {
    OperandLength(ts) > 0 && OperatorTail(ts[OperandLength(ts)..])
  }

  function FirstPrecedence(r: seq<string>): nat
    requires |r| > 0 && OperatorOf(r[0]).Some?
  {
    Precedence(OperatorOf(r[0]).value)
  }

  lemma LeafFacts(ts: seq<string>)
    requires OperandLength(ts) > 0
    ensures Yield(Leaf(ts)) == ts[..OperandLength(ts)] && Ordered(Leaf(ts)) && !Leaf(ts).Binary?
  {
    if OperandLength(ts) == 2 {
      assert ts[..2] == ["~", ts[1]];
    }
  }

  lemma OperandStep(mode: Mode, root: Ast, ts: seq<string>, prec: nat)
    requires OperandLength(ts) > 0
    ensures Parse(mode, root, ts, prec) == Parse(mode, Leaf(ts), ts[OperandLength(ts)..], prec)
    ensures Yield(Leaf(ts)) == ts[..OperandLength(ts)] && Ordered(Leaf(ts)) && !Leaf(ts).Binary?
  {
    LeafFacts(ts);
    if OperandLength(ts) == 1 {
      PlainStep(mode, root, ts[0], ts[1..], prec);
      assert [ts[0]] + ts[1..] == ts;
    } else {
      assert ts[1..][1..] == ts[2..];
      NegationTakesOneToken(mode, root, ts[1], ts[2..], prec);
      assert ["~", ts[1]] + ts[2..] == ts;
      assert ts[..2] == ["~", ts[1]];
    }
  }

  /** What one call of either parser on an operator tail achieves: it hands
      back an operator tail and keeps the tokens in order. */
  predicate Covered(root: Ast, r: seq<string>, t: Ast, rest: seq<string>) {
    IsSuffix(rest, r) && OperatorTail(rest) && Yield(t) + rest == Yield(root) + r
  }

  /** The right operand covers exactly the tokens after the operator it follows,
      up to what it hands back. */
  lemma OperandCovered(operand: seq<string>, right: (Ast, seq<string>))
    requires OperandLength(operand) > 0
    requires var tail := operand[OperandLength(operand)..];
      Yield(right.0) + right.1 == Yield(Leaf(operand)) + tail && IsSuffix(right.1, tail)
    ensures Yield(right.0) + right.1 == operand && IsSuffix(right.1, operand)
  {
    var n := OperandLength(operand);
    LeafFacts(operand);
    assert operand[..n] + operand[n..] == operand;
    assert operand[|operand| - |operand[n..]|..] == operand[n..];
    SuffixTrans(right.1, operand[n..], operand);
  }

  /** One operator of the tail: the node built from its right operand covers the rest. */
  lemma CoverCombine(root: Ast, op: Op, r: seq<string>, right: (Ast, seq<string>), res: (Ast, seq<string>))
    requires |r| > 0 && r[0] == Symbol(op)
    requires Yield(right.0) + right.1 == r[1..] && IsSuffix(right.1, r[1..])
    requires Covered(Binary(op, root, right.0), right.1, res.0, res.1)
    ensures Covered(root, r, res.0, res.1)
  {
    YieldJoin(root, op, r, right.0, right.1);
    assert r[|r| - |r[1..]|..] == r[1..];
    SuffixTrans(right.1, r[1..], r);
    SuffixTrans(res.1, right.1, r);
  }

  /** What one call of the corrected parser on an operator tail achieves: it
      covers the tokens it consumes, stops below its precedence and keeps the
      tree in order. */
  predicate Climbed(root: Ast, r: seq<string>, prec: nat, t: Ast, rest: seq<string>) {
    Covered(root, r, t, rest)
    && (|rest| > 0 ==> FirstPrecedence(rest) < prec)
    && Ordered(t)
    && (t == root || (t.Binary? && Precedence(t.op) >= prec))
    && (t.Binary? && |rest| > 0 ==> FirstPrecedence(rest) < Precedence(t.op))
  }

  lemma ClimbStop(root: Ast, r: seq<string>, prec: nat)
    requires OperatorTail(r) && Ordered(root)
    requires root.Binary? && |r| > 0 ==> FirstPrecedence(r) < Precedence(root.op)
    requires |r| > 0 ==> FirstPrecedence(r) < prec
    ensures Climbed(root, r, prec, root, r)
  {
    assert r[|r| - |r|..] == r;
  }

  lemma YieldJoin(root: Ast, op: Op, r: seq<string>, t: Ast, rest: seq<string>)
    requires |r| > 0 && r[0] == Symbol(op)
    requires Yield(t) + rest == r[1..]
    ensures Yield(Binary(op, root, t)) + rest == Yield(root) + r
  {
    assert r == [Symbol(op)] + r[1..];
    assert Yield(Binary(op, root, t)) == Yield(root) + ([Symbol(op)] + Yield(t));
  }

  /** An operator the minimum precedence lets through, followed by an operand:
      the right operand is parsed from its leaf at the operator's precedence,
      then the node it builds is parsed on at the resume precedence. */
  lemma ClimbUnfold(mode: Mode, root: Ast, op: Op, r: seq<string>, prec: nat)
    requires |r| > 0 && r[0] == Symbol(op) && Precedence(op) >= prec
    requires OperandLength(r[1..]) > 0
    requires var operand := r[1..];
      Parse(mode, Leaf(operand), operand[OperandLength(operand)..], Precedence(op)).Ok?
    ensures var operand := r[1..];
      var right := Parse(mode, Leaf(operand), operand[OperandLength(operand)..], Precedence(op)).value;
      Parse(mode, root, r, prec) == Parse(mode, Binary(op, root, right.0), right.1, Resume(mode, prec))
  {
    var operand := r[1..];
    assert r == [Symbol(op)] + operand;
    OperandStep(mode, Empty, operand, Precedence(op));
    OperatorStep(mode, root, op, operand, prec);
  }

  /** The node built from an ordered tree and a climbed right operand is ordered
      and can climb on. */
  lemma NodeReady(root: Ast, op: Op, leaf: Ast, tail: seq<string>, right: (Ast, seq<string>))
    requires Ordered(root) && (root.Binary? ==> Precedence(op) < Precedence(root.op))
    requires !leaf.Binary?
    requires Climbed(leaf, tail, Precedence(op), right.0, right.1)
    ensures OperatorTail(right.1) && Ordered(Binary(op, root, right.0))
    ensures |right.1| > 0 ==> FirstPrecedence(right.1) < Precedence(op)
  {
  }

  /** The invariant of precedence climbing: from a tree that respects the
      precedence table, and whose operator binds tighter than the next one, the
      corrected parser consumes operators down to the minimum precedence and
      keeps the tree in order. */
  lemma {:induction false} ClimbSound(root: Ast, r: seq<string>, prec: nat)
    requires OperatorTail(r) && Ordered(root)
    requires root.Binary? && |r| > 0 ==> FirstPrecedence(r) < Precedence(root.op)
    ensures Parse(Corrected, root, r, prec).Ok?
    ensures var res := Parse(Corrected, root, r, prec).value; Climbed(root, r, prec, res.0, res.1)
    decreases |r|
  {
    if |r| == 0 {
      ClimbStop(root, r, prec);
    } else {
      var op := OperatorOf(r[0]).value;
      if Precedence(op) < prec {
        assert r == [Symbol(op)] + r[1..];
        OperatorStep(Corrected, root, op, r[1..], prec);
        ClimbStop(root, r, prec);
      } else {
        var operand := r[1..];
        var tail := operand[OperandLength(operand)..];
        LeafFacts(operand);
        ClimbSound(Leaf(operand), tail, Precedence(op));
        var right := Parse(Corrected, Leaf(operand), tail, Precedence(op)).value;
        ClimbUnfold(Corrected, root, op, r, prec);
        var node := Binary(op, root, right.0);
        assert Parse(Corrected, root, r, prec) == Parse(Corrected, node, right.1, prec);
        NodeReady(root, op, Leaf(operand), tail, right);
        ClimbSound(node, right.1, prec);
        var res := Parse(Corrected, node, right.1, prec).value;
        OperandCovered(operand, right);
        ClimbLift(root, op, r, prec, right, res);
      }
    }
  }

  /** What the node built at an operator achieves by climbing on, the tree before
      the operator achieves too. */
  lemma ClimbLift(root: Ast, op: Op, r: seq<string>, prec: nat, right: (Ast, seq<string>), res: (Ast, seq<string>))
    requires |r| > 0 && r[0] == Symbol(op) && Precedence(op) >= prec
    requires Yield(right.0) + right.1 == r[1..] && IsSuffix(right.1, r[1..])
    requires Climbed(Binary(op, root, right.0), right.1, prec, res.0, res.1)
    ensures Climbed(root, r, prec, res.0, res.1)
  {
    CoverCombine(root, op, r, right, res);
  }

  /** The corrected parser parses every `Flat` token list completely, into a
      tree that keeps the tokens in order and nests the operators as the
      precedence table asks. */
  lemma CorrectedParsesFlat(ts: seq<string>)
    requires Flat(ts)
    ensures Parse(Corrected, Empty, ts, 0).Ok?
    ensures var res := Parse(Corrected, Empty, ts, 0).value;
      res.1 == [] && Yield(res.0) == ts && Ordered(res.0)
  {
    var n := OperandLength(ts);
    OperandStep(Corrected, Empty, ts, 0);
    ClimbSound(Leaf(ts), ts[n..], 0);
    var res := Parse(Corrected, Leaf(ts), ts[n..], 0).value;
    ParseConsumesAll(Corrected, Empty, ts);
    CoveredWhole(ts, res);
  }

  /** Either parser, started on an operator tail, succeeds and gives back every
      token it consumed, in order, as the yield of its tree. */
  lemma {:induction false} TailCovered(mode: Mode, root: Ast, r: seq<string>, prec: nat)
    requires OperatorTail(r)
    ensures Parse(mode, root, r, prec).Ok?
    ensures var res := Parse(mode, root, r, prec).value; Covered(root, r, res.0, res.1)
    decreases |r|
  {
    assert r[|r| - |r|..] == r;
    if |r| > 0 {
      var op := OperatorOf(r[0]).value;
      if Precedence(op) < prec {
        assert r == [Symbol(op)] + r[1..];
        OperatorStep(mode, root, op, r[1..], prec);
      } else {
        var operand := r[1..];
        var tail := operand[OperandLength(operand)..];
        TailCovered(mode, Leaf(operand), tail, Precedence(op));
        var right := Parse(mode, Leaf(operand), tail, Precedence(op)).value;
        ClimbUnfold(mode, root, op, r, prec);
        var node := Binary(op, root, right.0);
        TailCovered(mode, node, right.1, Resume(mode, prec));
        var res := Parse(mode, node, right.1, Resume(mode, prec)).value;
        OperandCovered(operand, right);
        CoverCombine(root, op, r, right, res);
      }
    }
  }

  /** Both parsers parse every `Flat` token list completely, into a tree that keeps the tokens in order. */
  lemma ParsesFlat(mode: Mode, ts: seq<string>)
    requires Flat(ts)
    ensures Parse(mode, Empty, ts, 0).Ok?
    ensures var res := Parse(mode, Empty, ts, 0).value; res.1 == [] && Yield(res.0) == ts
  {
    var n := OperandLength(ts);
    OperandStep(mode, Empty, ts, 0);
    TailCovered(mode, Leaf(ts), ts[n..], 0);
    var res := Parse(mode, Leaf(ts), ts[n..], 0).value;
    ParseConsumesAll(mode, Empty, ts);
    CoveredWhole(ts, res);
  }

  /** A cover of the whole operator tail after the first operand yields the whole list. */
  lemma CoveredWhole(ts: seq<string>, res: (Ast, seq<string>))
    requires OperandLength(ts) > 0 && res.1 == []
    requires Covered(Leaf(ts), ts[OperandLength(ts)..], res.0, res.1)
    ensures Yield(res.0) == ts
  {
    var n := OperandLength(ts);
    LeafFacts(ts);
    assert ts[..n] + ts[n..] == ts;
  }

  // ----- Where the source resumes at precedence 0 -----

  /** `y o2 z` followed by `o3 w`: the node of `y o2 z` is built first. */
  lemma InnerNode(mode: Mode, y: string, o2: Op, z: string, o3: Op, w: string, p1: nat)
    requires Plain(y) && Plain(z) && Plain(w)
    requires Precedence(o3) < p1 <= Precedence(o2)
    ensures Parse(mode, Empty, [y, Symbol(o2), z, Symbol(o3), w], p1) ==
      Parse(mode, Binary(o2, Var(y), Var(z)), [Symbol(o3), w], Resume(mode, p1))
  {
    var ts := [y, Symbol(o2), z, Symbol(o3), w];
    var rest := [z, Symbol(o3), w];
    assert ts == [y, Symbol(o2)] + rest;
    RightOperand(mode, z, o3, w, Precedence(o2));
    assert Parse(mode, Empty, rest, Precedence(o2)) == Ok((Var(z), [Symbol(o3), w]));
    OperandOperator(mode, y, o2, rest, p1);
  }

  /** The right operand `y o2 z o3 w` in the source, where `o3` is absorbed. */
  lemma InnerOperandAsWritten(y: string, o2: Op, z: string, o3: Op, w: string, p1: nat)
    requires Plain(y) && Plain(z) && Plain(w)
    requires Precedence(o3) < p1 <= Precedence(o2)
    ensures Parse(AsWritten, Empty, [y, Symbol(o2), z, Symbol(o3), w], p1) ==
      Ok((Binary(o3, Binary(o2, Var(y), Var(z)), Var(w)), []))
  {
    InnerNode(AsWritten, y, o2, z, o3, w, p1);
    LastOperand(AsWritten, Binary(o2, Var(y), Var(z)), o3, w, 0);
  }

  /** The right operand `y o2 z o3 w` in the corrected parser, which hands `o3` back. */
  lemma InnerOperandCorrected(y: string, o2: Op, z: string, o3: Op, w: string, p1: nat)
    requires Plain(y) && Plain(z) && Plain(w)
    requires Precedence(o3) < p1 <= Precedence(o2)
    ensures Parse(Corrected, Empty, [y, Symbol(o2), z, Symbol(o3), w], p1) ==
      Ok((Binary(o2, Var(y), Var(z)), [Symbol(o3), w]))
  {
    InnerNode(Corrected, y, o2, z, o3, w, p1);
    assert [Symbol(o3), w] == [Symbol(o3)] + [w];
    OperatorStep(Corrected, Binary(o2, Var(y), Var(z)), o3, [w], p1);
  }

  /** `x o1 y o2 z o3 w` with `o3` looser than `o1` and `o1` no tighter than `o2`,
      for example `a | b & c -> d`. */
  lemma FourOperands(mode: Mode, x: string, o1: Op, y: string, o2: Op, z: string, o3: Op, w: string)
    requires Plain(x) && Plain(y) && Plain(z) && Plain(w)
    requires Precedence(o3) < Precedence(o1) <= Precedence(o2)
    ensures Parse(mode, Empty, [x, Symbol(o1), y, Symbol(o2), z, Symbol(o3), w], 0) ==
      match mode
      case AsWritten => Ok((Binary(o1, Var(x), Binary(o3, Binary(o2, Var(y), Var(z)), Var(w))), []))
      case Corrected => Ok((Binary(o3, Binary(o1, Var(x), Binary(o2, Var(y), Var(z))), Var(w)), []))
  {
    var rest := [y, Symbol(o2), z, Symbol(o3), w];
    assert [x, Symbol(o1), y, Symbol(o2), z, Symbol(o3), w] == [x, Symbol(o1)] + rest;
    FirstOperator(mode, x, o1, rest);
    OperatorStep(mode, Var(x), o1, rest, 0);
    if mode == AsWritten {
      InnerOperandAsWritten(y, o2, z, o3, w, Precedence(o1));
    } else {
      InnerOperandCorrected(y, o2, z, o3, w, Precedence(o1));
    }
    if mode == Corrected {
      LastOperand(mode, Binary(o1, Var(x), Binary(o2, Var(y), Var(z))), o3, w, 0);
    }
  }

  /** The source's parse of `a | b & c -> d` is `a | ((b & c) -> d)`: `->` ends up
      below `|` although it binds more loosely. */
  lemma AsWrittenMisnests()
    ensures var t := Binary(Or, Var("a"), Binary(Implies, Binary(And, Var("b"), Var("c")), Var("d")));
      Parse(AsWritten, Empty, ["a", "|", "b", "&", "c", "->", "d"], 0) == Ok((t, [])) && !Ordered(t)
  {
    assert Plain("a") && Plain("b") && Plain("c") && Plain("d");
    assert [Symbol(Or), Symbol(And), Symbol(Implies)] == ["|", "&", "->"];
    FourOperands(AsWritten, "a", Or, "b", And, "c", Implies, "d");
  }

  /** The same expression is one the corrected parser handles in order. */
  lemma MisnestedIsFlat()
    ensures Flat(["a", "|", "b", "&", "c", "->", "d"])
  {
    var ts := ["a", "|", "b", "&", "c", "->", "d"];
    assert Plain("a") && Plain("b") && Plain("c") && Plain("d");
    var t1 := ts[1..];
    var t3 := t1[2..];
    var t5 := t3[2..];
    assert t1 == ["|", "b", "&", "c", "->", "d"] && t1[1..][0] == "b";
    assert t3 == ["&", "c", "->", "d"] && t3[1..][0] == "c";
    assert t5 == ["->", "d"] && t5[1..] == ["d"] && t5[2..] == [];
    assert OperatorTail(t5);
    assert OperatorTail(t3);
    assert OperatorTail(t1);
  }
}
