/** The tokenizer of the expression evaluator: a single left-to-right scan that
    drops whitespace, turns every top-level parenthesised group into one token,
    recognises the two-character `->` and three-character `<->`, and emits every
    other character as a token of its own. */
module Tokenizer {
  import opened Results

  /** The source's `ParseError`: the character the scan expected and the index
      at which it looked for it (which may be the length of the input). */
  datatype TokenError = Expected(symbol: char, index: nat)

  /** The characters matched by the JavaScript regular expression `\s`. */
  predicate IsWhitespace(c: char) {
    var n := c as int;
    (9 <= n <= 13) || n == 32 || n == 0xA0 || n == 0x1680 || (0x2000 <= n <= 0x200A)
    || n == 0x2028 || n == 0x2029 || n == 0x202F || n == 0x205F || n == 0x3000 || n == 0xFEFF
  }

  /** The input with every whitespace character removed. */
  function StripWhitespace(s: string): string {
    if |s| == 0 then ""
    else StripWhitespace(s[..|s| - 1]) + (if IsWhitespace(s[|s| - 1]) then "" else [s[|s| - 1]])
  }

  /** How a character moves the parenthesis depth. */
  function Delta(c: char): int {
    if c == '(' then 1 else if c == ')' then -1 else 0
  }

  /** Parenthesis depth after reading all of `s`: opening minus closing parentheses. */
  function Depth(s: string): int {
    if |s| == 0 then 0 else Depth(s[..|s| - 1]) + Delta(s[|s| - 1])
  }

  /** The tokens written one after another. */
  function Concat(ts: seq<string>): string {
    if |ts| == 0 then "" else ts[0] + Concat(ts[1..])
  }

  predicate NoWhitespace(t: string) {
    forall k :: 0 <= k < |t| ==> !IsWhitespace(t[k])
  }

  /** A group token: it opens with `(`, closes with `)`, and its depth first
      returns to zero at its last character, so nested parentheses stay inside. */
  ghost predicate IsGroup(t: string) {
    NoWhitespace(t) && |t| >= 2 && t[0] == '(' && t[|t| - 1] == ')' && Depth(t) == 0
    && forall k :: 0 < k < |t| ==> Depth(t[..k]) > 0
  }

  /** Every token the scan emits: one non-whitespace character other than the
      operator starters `-` and `<`, one of the arrows, or a group. */
  ghost predicate WellFormedToken(t: string) {
    (|t| == 1 && !IsWhitespace(t[0]) && t[0] != '-' && t[0] != '<')
    || t == "->" || t == "<->" || IsGroup(t)
  }

  /** The group being accumulated while the depth is `level > 0`. */
  ghost predicate OpenGroup(g: string, level: int) {
    NoWhitespace(g) && |g| >= 1 && g[0] == '(' && Depth(g) == level
    && forall k :: 1 <= k <= |g| ==> Depth(g[..k]) > 0
  }

  /** The scan's state after reading `s[..i]`. */
  ghost predicate ScanState(s: string, i: nat, level: int, group: string, tokens: seq<string>) {
    i <= |s| && level == Depth(s[..i])
    && Concat(tokens) + group == StripWhitespace(s[..i])
    && (level <= 0 ==> group == "")
    && (level > 0 ==> OpenGroup(group, level))
    && forall j :: 0 <= j < |tokens| ==> WellFormedToken(tokens[j])
  }

  /** The operator characters at position `p` are well formed: outside any group
      a `-` is followed by `>`, and a `<` by `-` and then `>`. */
  ghost predicate OperatorAt(s: string, p: nat)
    requires p < |s|
  {
    Depth(s[..p]) <= 0 ==>
      (s[p] == '-' ==> p + 1 < |s| && s[p + 1] == '>')
      && (s[p] == '<' ==> p + 2 < |s| && s[p + 1] == '-' && s[p + 2] == '>')
  }

  ghost predicate OperatorsWellFormed(s: string) {
    forall p :: 0 <= p < |s| ==> OperatorAt(s, p)
  }

  /** What an error reports: the index just after an operator starter that sits
      outside any group, where the expected continuation is missing. */
  ghost predicate MalformedAt(s: string, e: TokenError) {
    var k := e.index;
    1 <= k <= |s| && !(k < |s| && s[k] == e.symbol) &&
    match e.symbol
    case '>' =>
      (s[k - 1] == '-' && Depth(s[..k - 1]) <= 0)
      || (2 <= k && s[k - 2] == '<' && s[k - 1] == '-' && Depth(s[..k - 2]) <= 0)
    case '-' => s[k - 1] == '<' && Depth(s[..k - 1]) <= 0
    case _ => false
  }

  /** The scan's variables: the index, the parenthesis depth, the open group and
      the tokens emitted so far. */
  datatype Scan = Scan(i: nat, level: int, group: string, tokens: seq<string>)

  /** One iteration of the source's loop, reading `s[st.i]` and, for `-` and `<`,
      the characters it looks ahead at. */
  function Step(s: string, st: Scan): (r: Result<Scan, TokenError>)
    requires st.i < |s|
    ensures r.Ok? ==> st.i < r.value.i <= |s|
  {
    var Scan(i, level, group, tokens) := st;
    var c := s[i];
    if IsWhitespace(c) then Ok(Scan(i + 1, level, group, tokens))
    else if c == ')' && level - 1 == 0 then Ok(Scan(i + 1, 0, "", tokens + [group + [c]]))
    else
      var lvl := level + Delta(c);
      if lvl > 0 then Ok(Scan(i + 1, lvl, group + [c], tokens))
      else if c == '-' then
        if i + 1 < |s| && s[i + 1] == '>' then Ok(Scan(i + 2, lvl, group, tokens + ["->"]))
        else Err(Expected('>', i + 1))
      else if c == '<' then
        if !(i + 1 < |s| && s[i + 1] == '-') then Err(Expected('-', i + 1))
        else if !(i + 2 < |s| && s[i + 2] == '>') then Err(Expected('>', i + 2))
        else Ok(Scan(i + 3, lvl, group, tokens + ["<->"]))
      else Ok(Scan(i + 1, lvl, group, tokens + [[c]]))
  }

  /** The rest of the scan from state `st`. */
  function ScanFrom(s: string, st: Scan): Result<seq<string>, TokenError>
    requires st.i <= |s|
    decreases |s| - st.i
  {
    if st.i == |s| then Ok(st.tokens)
    else
      match Step(s, st)
      case Err(e) => Err(e)
      case Ok(next) => ScanFrom(s, next)
  }

  /** The tokens of an expression, or the error the scan stops with. */
  function Tokens(s: string): Result<seq<string>, TokenError> {
    ScanFrom(s, Scan(0, 0, "", []))
  }

  /** The source's `tokenize`: the loop whose index is also advanced inside the
      body to look ahead past `-` and `<`. */
  method Tokenize(expression: string) returns (r: Result<seq<string>, TokenError>)
    ensures r == Tokens(expression)
  {
    var tokens: seq<string> := [];
    var level := 0;
    var group := "";
    var i := 0;
    while i < |expression|
      invariant 0 <= i <= |expression|
      invariant ScanFrom(expression, Scan(i, level, group, tokens)) == Tokens(expression)
    {
      var symbol := expression[i];
      if IsWhitespace(symbol) {
        i := i + 1;
        continue;
      } else if symbol == '(' {
        level := level + 1;
      } else if symbol == ')' {
        level := level - 1;
        if level == 0 {
          group := group + [symbol];
          tokens := tokens + [group];
          group := "";
          i := i + 1;
          continue;
        }
      }
      if level > 0 {
        group := group + [symbol];
        i := i + 1;
        continue;
      }
      if symbol == '-' {
        i := i + 1;
        if !(i < |expression| && expression[i] == '>') {
          return Err(Expected('>', i));
        }
        tokens := tokens + ["->"];
      } else if symbol == '<' {
        i := i + 1;
        if !(i < |expression| && expression[i] == '-') {
          return Err(Expected('-', i));
        }
        i := i + 1;
        if !(i < |expression| && expression[i] == '>') {
          return Err(Expected('>', i));
        }
        tokens := tokens + ["<->"];
      } else {
        tokens := tokens + [[symbol]];
      }
      i := i + 1;
    }
    return Ok(tokens);
  }

  // ----- Small facts about prefixes -----

  lemma DepthStep(s: string, i: nat)
    requires i < |s|
    ensures Depth(s[..i + 1]) == Depth(s[..i]) + Delta(s[i])
  {
    assert s[..i + 1][..i] == s[..i];
  }

  lemma StripStep(s: string, i: nat)
    requires i < |s|
    ensures StripWhitespace(s[..i + 1])
         == StripWhitespace(s[..i]) + (if IsWhitespace(s[i]) then "" else [s[i]])
  {
    assert s[..i + 1][..i] == s[..i];
  }

  lemma {:induction false} ConcatAppend(ts: seq<string>, t: string)
    ensures Concat(ts + [t]) == Concat(ts) + t
  {
    if |ts| == 0 {
      assert ts + [t] == [t];
    } else {
      assert (ts + [t])[1..] == ts[1..] + [t];
      ConcatAppend(ts[1..], t);
    }
  }

  lemma {:induction false} StripWhitespaceShorter(s: string)
    ensures |StripWhitespace(s)| <= |s|
  {
    if |s| > 0 {
      StripWhitespaceShorter(s[..|s| - 1]);
    }
  }

  /** Reading `s[i..j]`, none of it whitespace or a parenthesis, appends exactly
      that text to the stripped input and leaves the depth unchanged. */
  lemma {:induction false} PlainRange(s: string, i: nat, j: nat)
    requires i <= j <= |s|
    requires forall k :: i <= k < j ==> !IsWhitespace(s[k]) && Delta(s[k]) == 0
    ensures StripWhitespace(s[..j]) == StripWhitespace(s[..i]) + s[i..j]
    ensures Depth(s[..j]) == Depth(s[..i])
    decreases j - i
  {
    if i < j {
      PlainRange(s, i, j - 1);
      StripStep(s, j - 1);
      DepthStep(s, j - 1);
      assert s[i..j] == s[i..j - 1] + [s[j - 1]];
    }
  }

  /** A state reached by one emitting step again satisfies the scan invariant;
      `t` is the non-whitespace text added to the tokens. */
  lemma EmitKeeps(s: string, i: nat, n: nat, tokens: seq<string>, t: string)
    requires i + n <= |s| && 1 <= n <= 3
    requires Concat(tokens) == StripWhitespace(s[..i])
    requires t == s[i..i + n]
    requires forall k :: i <= k < i + n ==> !IsWhitespace(s[k]) && Delta(s[k]) == 0
    ensures Concat(tokens + [t]) == StripWhitespace(s[..i + n])
    ensures Depth(s[..i + n]) == Depth(s[..i])
  {
    ConcatAppend(tokens, t);
    PlainRange(s, i, i + n);
  }

  lemma AppendWellFormed(tokens: seq<string>, t: string)
    requires forall j :: 0 <= j < |tokens| ==> WellFormedToken(tokens[j])
    requires WellFormedToken(t)
    ensures forall j :: 0 <= j < |tokens + [t]| ==> WellFormedToken((tokens + [t])[j])
  {
    forall j | 0 <= j < |tokens + [t]|
      ensures WellFormedToken((tokens + [t])[j])
    {
      if j < |tokens| {
        assert (tokens + [t])[j] == tokens[j];
      }
    }
  }

  lemma WhitespaceStep(s: string, i: nat, level: int, group: string, tokens: seq<string>)
    requires ScanState(s, i, level, group, tokens) && i < |s| && IsWhitespace(s[i])
    ensures ScanState(s, i + 1, level, group, tokens)
  {
    DepthStep(s, i);
    StripStep(s, i);
  }

  lemma CloseStep(s: string, i: nat, group: string, tokens: seq<string>)
    requires ScanState(s, i, 1, group, tokens) && i < |s| && s[i] == ')'
    ensures ScanState(s, i + 1, 0, "", tokens + [group + [s[i]]])
  {
    DepthStep(s, i);
    StripStep(s, i);
    var t := group + [s[i]];
    ConcatAppend(tokens, t);
    assert t[..|t| - 1] == group;
    forall k | 0 < k < |t| ensures Depth(t[..k]) > 0 {
      assert t[..k] == group[..k];
    }
    assert IsGroup(t);
    AppendWellFormed(tokens, t);
  }

  lemma GroupStep(s: string, i: nat, level: int, group: string, tokens: seq<string>)
    requires ScanState(s, i, level, group, tokens) && i < |s| && !IsWhitespace(s[i])
    requires level + Delta(s[i]) > 0
    ensures ScanState(s, i + 1, level + Delta(s[i]), group + [s[i]], tokens)
  {
    DepthStep(s, i);
    StripStep(s, i);
    var g := group + [s[i]];
    var lvl := level + Delta(s[i]);
    assert g[..|g| - 1] == group;
    assert Depth(g) == lvl;
    forall k | 1 <= k <= |g| ensures Depth(g[..k]) > 0 {
      if k < |g| { assert g[..k] == group[..k]; } else { assert g[..k] == g; }
    }
  }

  lemma CharStep(s: string, i: nat, level: int, tokens: seq<string>)
    requires ScanState(s, i, level, "", tokens) && i < |s| && !IsWhitespace(s[i])
    requires level + Delta(s[i]) <= 0 && s[i] != '-' && s[i] != '<'
    ensures ScanState(s, i + 1, level + Delta(s[i]), "", tokens + [[s[i]]])
  {
    var t := [s[i]];
    DepthStep(s, i);
    StripStep(s, i);
    ConcatAppend(tokens, t);
    assert WellFormedToken(t);
    AppendWellFormed(tokens, t);
  }

  lemma ArrowStep(s: string, i: nat, level: int, tokens: seq<string>, t: string)
    requires ScanState(s, i, level, "", tokens) && level <= 0
    requires t == "->" || t == "<->"
    requires i + |t| <= |s| && s[i..i + |t|] == t
    ensures ScanState(s, i + |t|, level, "", tokens + [t])
  {
    forall k | i <= k < i + |t| ensures !IsWhitespace(s[k]) && Delta(s[k]) == 0 {
      assert s[k] == t[k - i];
    }
    EmitKeeps(s, i, |t|, tokens, t);
    AppendWellFormed(tokens, t);
  }

  /** What the source promises of a successful scan of `s`: every token is well
      formed, and the tokens written out are a prefix of the whitespace-free input,
      equal to all of it exactly when no group is left open at the end. */
  ghost predicate SoundTokens(s: string, ts: seq<string>) {
    (forall j :: 0 <= j < |ts| ==> WellFormedToken(ts[j]))
    && Concat(ts) <= StripWhitespace(s)
    && (Concat(ts) == StripWhitespace(s) <==> Depth(s) <= 0)
    && exists g :: TrailingGroup(s, ts, g)
  }

  /** What the tokens leave out of the whitespace-free input is `g`: nothing when
      the parentheses do not end open, and otherwise the group still open at the end. */
  ghost predicate TrailingGroup(s: string, ts: seq<string>, g: string) {
    Concat(ts) + g == StripWhitespace(s)
    && (Depth(s) <= 0 ==> g == "")
    && (Depth(s) > 0 ==> OpenGroup(g, Depth(s)))
  }

  /** Where the token at `j` may stand: a lone `(` only where the parentheses
      before it have closed more than they opened, and a group only where every
      parenthesis before it is closed. */
  ghost predicate PlacedAt(ts: seq<string>, j: nat)
    requires j < |ts|
  {
    (ts[j] == "(" ==> Depth(Concat(ts[..j])) < 0)
    && (IsGroup(ts[j]) ==> Depth(Concat(ts[..j])) == 0)
  }

  ghost predicate Placed(ts: seq<string>) {
    forall j :: 0 <= j < |ts| ==> PlacedAt(ts, j)
  }

  /** The placement facts the scan keeps: the tokens are placed, and their depth
      is the scan's level while no group is open, 0 while one is. */
  ghost predicate Placement(ts: seq<string>, level: int) {
    Placed(ts) && Depth(Concat(ts)) == (if level <= 0 then level else 0)
  }

  lemma {:induction false} DepthAppend(a: string, b: string)
    ensures Depth(a + b) == Depth(a) + Depth(b)
    decreases |b|
  {
    if |b| == 0 {
      assert a + b == a;
    } else {
      assert (a + b)[..|a + b| - 1] == a + b[..|b| - 1];
      DepthAppend(a, b[..|b| - 1]);
    }
  }

  lemma PlacedAppend(ts: seq<string>, t: string)
    requires Placed(ts)
    requires t == "(" ==> Depth(Concat(ts)) < 0
    requires IsGroup(t) ==> Depth(Concat(ts)) == 0
    ensures Placed(ts + [t])
  {
    forall j | 0 <= j < |ts + [t]| ensures PlacedAt(ts + [t], j) {
      if j < |ts| {
        assert (ts + [t])[..j] == ts[..j];
        assert PlacedAt(ts, j);
      } else {
        assert (ts + [t])[..j] == ts;
      }
    }
  }

  /** Emitting `t` at a place its kind allows moves the tokens' depth by the depth of `t`. */
  lemma EmitPlaced(ts: seq<string>, t: string, lvl: int)
    requires Placed(ts) && lvl == Depth(Concat(ts)) + Depth(t) && lvl <= 0
    requires t == "(" ==> Depth(Concat(ts)) < 0
    requires IsGroup(t) ==> Depth(Concat(ts)) == 0
    ensures Placement(ts + [t], lvl)
  {
    ConcatAppend(ts, t);
    DepthAppend(Concat(ts), t);
    PlacedAppend(ts, t);
  }

  lemma ArrowDepths()
    ensures Depth("->") == 0 && Depth("<->") == 0
  {
    assert "->"[..1] == "-" && "-"[..0] == "";
    assert "<->"[..2] == "<-" && "<-"[..1] == "<" && "<"[..0] == "";
  }

  /** One step keeps the placement facts. */
  lemma StepPlaced(s: string, st: Scan)
    requires st.i < |s| && ScanState(s, st.i, st.level, st.group, st.tokens)
    requires Placement(st.tokens, st.level)
    ensures Step(s, st).Ok? ==> var n := Step(s, st).value; Placement(n.tokens, n.level)
  {
    var Scan(i, level, group, tokens) := st;
    var c := s[i];
    if IsWhitespace(c) {
      assert Step(s, st) == Ok(Scan(i + 1, level, group, tokens));
    } else if c == ')' && level - 1 == 0 {
      var t := group + [c];
      assert Step(s, st) == Ok(Scan(i + 1, 0, "", tokens + [t]));
      assert t[..|t| - 1] == group;
      EmitPlaced(tokens, t, 0);
    } else if level + Delta(c) > 0 {
      assert Step(s, st) == Ok(Scan(i + 1, level + Delta(c), group + [c], tokens));
    } else if c == '-' {
      if i + 1 < |s| && s[i + 1] == '>' {
        assert Step(s, st) == Ok(Scan(i + 2, level, group, tokens + ["->"]));
        ArrowDepths();
        EmitPlaced(tokens, "->", level);
      }
    } else if c == '<' {
      if i + 2 < |s| && s[i + 1] == '-' && s[i + 2] == '>' {
        assert Step(s, st) == Ok(Scan(i + 3, level, group, tokens + ["<->"]));
        ArrowDepths();
        EmitPlaced(tokens, "<->", level);
      }
    } else {
      var t := [c];
      assert Step(s, st) == Ok(Scan(i + 1, level + Delta(c), group, tokens + [t]));
      assert t[..0] == "";
      EmitPlaced(tokens, t, level + Delta(c));
    }
  }

  /** From any state satisfying the scan invariant and the placement facts, a
      successful scan places every token. */
  lemma {:induction false} ScanPlaced(s: string, st: Scan)
    requires st.i <= |s| && ScanState(s, st.i, st.level, st.group, st.tokens)
    requires Placement(st.tokens, st.level)
    ensures ScanFrom(s, st).Ok? ==> Placed(ScanFrom(s, st).value)
    decreases |s| - st.i
  {
    if st.i < |s| {
      StepKeeps(s, st);
      StepPlaced(s, st);
      if Step(s, st).Ok? {
        ScanPlaced(s, Step(s, st).value);
      }
    }
  }

  /** One step keeps the scan invariant. */
  lemma StepKeeps(s: string, st: Scan)
    requires st.i < |s| && ScanState(s, st.i, st.level, st.group, st.tokens)
    ensures Step(s, st).Ok? ==> var n := Step(s, st).value; ScanState(s, n.i, n.level, n.group, n.tokens)
  {
    var Scan(i, level, group, tokens) := st;
    var c := s[i];
    if IsWhitespace(c) {
      assert Step(s, st) == Ok(Scan(i + 1, level, group, tokens));
      WhitespaceStep(s, i, level, group, tokens);
    } else if c == ')' && level - 1 == 0 {
      assert Step(s, st) == Ok(Scan(i + 1, 0, "", tokens + [group + [c]]));
      CloseStep(s, i, group, tokens);
    } else if level + Delta(c) > 0 {
      assert Step(s, st) == Ok(Scan(i + 1, level + Delta(c), group + [c], tokens));
      GroupStep(s, i, level, group, tokens);
    } else if c == '-' {
      if i + 1 < |s| && s[i + 1] == '>' {
        assert Step(s, st) == Ok(Scan(i + 2, level, group, tokens + ["->"]));
        assert s[i..i + 2] == "->";
        ArrowStep(s, i, level, tokens, "->");
      }
    } else if c == '<' {
      if i + 2 < |s| && s[i + 1] == '-' && s[i + 2] == '>' {
        assert Step(s, st) == Ok(Scan(i + 3, level, group, tokens + ["<->"]));
        assert s[i..i + 3] == "<->";
        ArrowStep(s, i, level, tokens, "<->");
      }
    } else {
      assert Step(s, st) == Ok(Scan(i + 1, level + Delta(c), group, tokens + [[c]]));
      CharStep(s, i, level, tokens);
    }
  }

  /** A step that fails names a malformed operator. */
  lemma StepErrorSound(s: string, st: Scan)
    requires st.i < |s| && st.level == Depth(s[..st.i])
    ensures Step(s, st).Err? ==> MalformedAt(s, Step(s, st).error)
  {
    var i := st.i;
    assert s[..i + 1 - 1] == s[..i];
    assert s[..i + 2 - 2] == s[..i];
  }

  /** From any state satisfying the scan invariant, a successful scan is sound
      and a failing one names a malformed operator. */
  lemma {:induction false} ScanSound(s: string, st: Scan)
    requires st.i <= |s| && ScanState(s, st.i, st.level, st.group, st.tokens)
    ensures ScanFrom(s, st).Ok? ==> SoundTokens(s, ScanFrom(s, st).value)
    ensures ScanFrom(s, st).Err? ==> MalformedAt(s, ScanFrom(s, st).error)
    decreases |s| - st.i
  {
    if st.i == |s| {
      assert s[..st.i] == s;
      assert st.level > 0 ==> |st.group| >= 1;
      assert TrailingGroup(s, st.tokens, st.group);
    } else {
      StepKeeps(s, st);
      StepErrorSound(s, st);
      if Step(s, st).Ok? {
        ScanSound(s, Step(s, st).value);
      }
    }
  }

  /** The positions before `n` hold well-formed operators. */
  ghost predicate OperatorsBefore(s: string, n: nat)
    requires n <= |s|
  {
    forall p :: 0 <= p < n ==> OperatorAt(s, p)
  }

  /** A step fails exactly at a malformed operator, and accepts the positions it reads. */
  lemma StepAccepts(s: string, st: Scan)
    requires st.i < |s| && st.level == Depth(s[..st.i])
    ensures Step(s, st).Err? ==> !OperatorAt(s, st.i) && Step(s, st).error == ErrorAt(s, st.i)
    ensures Step(s, st).Ok? ==> forall p :: st.i <= p < Step(s, st).value.i ==> OperatorAt(s, p)
  {
  }

  lemma {:induction false} ScanAccepts(s: string, st: Scan)
    requires st.i <= |s| && ScanState(s, st.i, st.level, st.group, st.tokens)
    requires OperatorsBefore(s, st.i)
    ensures ScanFrom(s, st).Ok? <==> OperatorsWellFormed(s)
    decreases |s| - st.i
  {
    if st.i < |s| {
      StepKeeps(s, st);
      StepAccepts(s, st);
      if Step(s, st).Ok? {
        ScanAccepts(s, Step(s, st).value);
      }
    }
  }

  /** The error for a malformed operator starter at `p`: a `-` expects `>` next;
      a `<` expects `-` next and then `>`. */
  function ErrorAt(s: string, p: nat): (e: TokenError)
    requires p < |s|
    ensures p < e.index <= p + 2
  {
    if s[p] == '-' then Expected('>', p + 1)
    else if !(p + 1 < |s| && s[p + 1] == '-') then Expected('-', p + 1)
    else Expected('>', p + 2)
  }

  /** `e` is the error of the first malformed operator: the one at a position
      `p` with every operator before it well formed. */
  ghost predicate FirstMalformed(s: string, e: TokenError) {
    exists p: nat :: p < |s| && OperatorsBefore(s, p) && !OperatorAt(s, p) && e == ErrorAt(s, p)
  }

  /** There is only one first malformed operator, so the error is determined. */
  lemma FirstMalformedUnique(s: string, e1: TokenError, e2: TokenError)
    requires FirstMalformed(s, e1) && FirstMalformed(s, e2)
    ensures e1 == e2
  {
    var p1: nat :| p1 < |s| && OperatorsBefore(s, p1) && !OperatorAt(s, p1) && e1 == ErrorAt(s, p1);
    var p2: nat :| p2 < |s| && OperatorsBefore(s, p2) && !OperatorAt(s, p2) && e2 == ErrorAt(s, p2);
    if p1 < p2 {
      assert false;
    } else if p2 < p1 {
      assert false;
    }
  }

  /** A failing scan stops at the first malformed operator from its state on,
      with the error that operator calls for. */
  lemma {:induction false} ScanFirstError(s: string, st: Scan)
    requires st.i <= |s| && ScanState(s, st.i, st.level, st.group, st.tokens)
    requires OperatorsBefore(s, st.i)
    ensures ScanFrom(s, st).Err? ==> FirstMalformed(s, ScanFrom(s, st).error)
    decreases |s| - st.i
  {
    if st.i < |s| {
      StepKeeps(s, st);
      StepAccepts(s, st);
      if Step(s, st).Ok? {
        ScanFirstError(s, Step(s, st).value);
      } else {
        var p: nat := st.i;
        assert OperatorsBefore(s, p) && !OperatorAt(s, p) && ScanFrom(s, st).error == ErrorAt(s, p);
      }
    }
  }

  lemma InitialState(s: string)
    ensures ScanState(s, 0, 0, "", []) && Placement([], 0)
  {
    assert s[..0] == "";
  }

  // ----- What the source promises of `tokenize` -----

  /** A successful tokenization: every token is a single non-whitespace character
      other than `-` and `<`, an arrow, or a group that closes exactly where its
      depth returns to zero; the tokens written out are the input without its
      whitespace, short only of a trailing group that is never closed; and every
      lone `(` and every group stands where its kind is emitted. */
  lemma TokensSound(s: string)
    ensures Tokens(s).Ok? ==> SoundTokens(s, Tokens(s).value) && Placed(Tokens(s).value)
    ensures Tokens(s).Err? ==> MalformedAt(s, Tokens(s).error)
    ensures Tokens(s).Err? ==> FirstMalformed(s, Tokens(s).error)
  {
    InitialState(s);
    ScanSound(s, Scan(0, 0, "", []));
    ScanPlaced(s, Scan(0, 0, "", []));
    ScanFirstError(s, Scan(0, 0, "", []));
  }

  /** Tokenization fails exactly when some `-` outside a group is not followed by
      `>`, or some `<` outside a group is not followed by `->`. */
  lemma TokensAccepted(s: string)
    ensures Tokens(s).Ok? <==> OperatorsWellFormed(s)
  {
    InitialState(s);
    ScanAccepts(s, Scan(0, 0, "", []));
  }

  /** No token holds whitespace, and together they hold no more characters than the input. */
  lemma TokensShorter(s: string)
    ensures Tokens(s).Ok? ==>
      |Concat(Tokens(s).value)| <= |s|
      && forall j :: 0 <= j < |Tokens(s).value| ==> NoWhitespace(Tokens(s).value[j])
  {
    TokensSound(s);
    StripWhitespaceShorter(s);
  }

  lemma {:induction false} AllWhitespace(s: string)
    requires StripWhitespace(s) == ""
    ensures forall k :: 0 <= k < |s| ==> IsWhitespace(s[k])
  {
    if |s| > 0 {
      var init := s[..|s| - 1];
      AllWhitespace(init);
      forall k | 0 <= k < |s| ensures IsWhitespace(s[k]) {
        if k < |s| - 1 { assert s[k] == init[k]; }
      }
    }
  }

  /** An empty or all-whitespace expression has no tokens. */
  lemma TokensOfBlank(s: string)
    requires StripWhitespace(s) == ""
    ensures Tokens(s) == Ok([])
  {
    AllWhitespace(s);
    TokensAccepted(s);
    TokensSound(s);
    ConcatCoversTokens(Tokens(s).value);
  }

  lemma {:induction false} ConcatCoversTokens(ts: seq<string>)
    requires forall j :: 0 <= j < |ts| ==> WellFormedToken(ts[j])
    ensures |Concat(ts)| >= |ts|
  {
    if |ts| > 0 {
      assert WellFormedToken(ts[0]);
      ConcatCoversTokens(ts[1..]);
    }
  }

  // ----- Examples -----

  lemma ArrowExample()
    ensures Tokens("a->b") == Ok(["a", "->", "b"])
  {
    var s := "a->b";
    assert s[0] == 'a' && s[1] == '-' && s[2] == '>' && s[3] == 'b';
    var r0 := Step(s, Scan(0, 0, "", []));
    assert r0.value.tokens == ["a"];
    assert r0 == Ok(Scan(1, 0, "", ["a"]));
    var r1 := Step(s, Scan(1, 0, "", ["a"]));
    assert r1.value.tokens == ["a", "->"];
    assert r1 == Ok(Scan(3, 0, "", ["a", "->"]));
    var r3 := Step(s, Scan(3, 0, "", ["a", "->"]));
    assert r3.value.tokens == ["a", "->", "b"];
    assert r3 == Ok(Scan(4, 0, "", ["a", "->", "b"]));
  }

  /** Outside any group, a plain character is emitted as a token of its own. */
  lemma ScanChar(s: string, i: nat, tokens: seq<string>)
    requires i < |s| && !IsWhitespace(s[i]) && Delta(s[i]) == 0 && s[i] != '-' && s[i] != '<'
    ensures ScanFrom(s, Scan(i, 0, "", tokens)) == ScanFrom(s, Scan(i + 1, 0, "", tokens + [[s[i]]]))
  {
  }

  /** Outside any group, `->` is emitted as one token. */
  lemma ScanArrow(s: string, i: nat, tokens: seq<string>)
    requires i + 1 < |s| && s[i] == '-' && s[i + 1] == '>'
    ensures ScanFrom(s, Scan(i, 0, "", tokens)) == ScanFrom(s, Scan(i + 2, 0, "", tokens + ["->"]))
  {
  }

  /** Two plain characters in a row, outside any group, are two tokens. */
  lemma ScanChars(s: string, i: nat, tokens: seq<string>)
    requires i + 1 < |s|
    requires !IsWhitespace(s[i]) && Delta(s[i]) == 0 && s[i] != '-' && s[i] != '<'
    requires !IsWhitespace(s[i + 1]) && Delta(s[i + 1]) == 0 && s[i + 1] != '-' && s[i + 1] != '<'
    ensures ScanFrom(s, Scan(i, 0, "", tokens))
         == ScanFrom(s, Scan(i + 2, 0, "", tokens + [[s[i]], [s[i + 1]]]))
  {
    ScanChar(s, i, tokens);
    ScanChar(s, i + 1, tokens + [[s[i]]]);
    assert tokens + [[s[i]]] + [[s[i + 1]]] == tokens + [[s[i]], [s[i + 1]]];
  }

  /** The first four characters of `a|b&c->d`, one token each. */
  lemma OperatorsFront(s: string, t0: seq<string>)
    requires s == "a|b&c->d"
    ensures ScanFrom(s, Scan(0, 0, "", t0)) == ScanFrom(s, Scan(4, 0, "", t0 + ["a", "|", "b", "&"]))
  {
    assert s[0] == 'a' && s[1] == '|' && s[2] == 'b' && s[3] == '&';
    var t2 := t0 + ["a", "|"];
    ScanChars(s, 0, t0);
    ScanChars(s, 2, t2);
    assert t2 + ["b", "&"] == t0 + ["a", "|", "b", "&"];
  }

  /** The rest of `a|b&c->d`: an operand, the arrow and the last operand. */
  lemma OperatorsBack(s: string, t4: seq<string>)
    requires s == "a|b&c->d"
    ensures ScanFrom(s, Scan(4, 0, "", t4)) == Ok(t4 + ["c", "->", "d"])
  {
    assert s[4] == 'c' && s[5] == '-' && s[6] == '>' && s[7] == 'd';
    var t5 := t4 + ["c"];
    var t7 := t5 + ["->"];
    var t8 := t7 + ["d"];
    ScanChar(s, 4, t4);
    ScanArrow(s, 5, t5);
    ScanChar(s, 7, t7);
    assert ScanFrom(s, Scan(8, 0, "", t8)) == Ok(t8);
    assert t8 == t4 + ["c", "->", "d"];
  }

  lemma OperatorsScan(s: string)
    requires s == "a|b&c->d"
    ensures Tokens(s) == Ok(["a", "|", "b", "&", "c", "->", "d"])
  {
    var t4: seq<string> := ["a", "|", "b", "&"];
    OperatorsFront(s, []);
    assert [] + t4 == t4;
    OperatorsBack(s, t4);
    assert t4 + ["c", "->", "d"] == ["a", "|", "b", "&", "c", "->", "d"];
  }

  /** At depth 0, `(` opens a group. */
  lemma ScanOpen(s: string, i: nat, tokens: seq<string>)
    requires i < |s| && s[i] == '('
    ensures ScanFrom(s, Scan(i, 0, "", tokens)) == ScanFrom(s, Scan(i + 1, 1, "(", tokens))
  {
    assert "" + [s[i]] == "(";
  }

  /** Inside a group that this character does not close, it joins the group. */
  lemma ScanInside(s: string, i: nat, level: int, group: string, tokens: seq<string>)
    requires i < |s| && !IsWhitespace(s[i]) && level >= 1 && Delta(s[i]) == 0
    ensures ScanFrom(s, Scan(i, level, group, tokens))
         == ScanFrom(s, Scan(i + 1, level, group + [s[i]], tokens))
  {
  }

  /** At depth 1, `)` closes the group, which becomes one token. */
  lemma ScanClose(s: string, i: nat, group: string, tokens: seq<string>)
    requires i < |s| && s[i] == ')'
    ensures ScanFrom(s, Scan(i, 1, group, tokens)) == ScanFrom(s, Scan(i + 1, 0, "", tokens + [group + ")"]))
  {
  }

  /** The group `(b|c)` of `a&(b|c)` up to its closing parenthesis. */
  lemma GroupBody(s: string, t: seq<string>)
    requires s == "a&(b|c)"
    ensures ScanFrom(s, Scan(2, 0, "", t)) == ScanFrom(s, Scan(6, 1, "(b|c", t))
  {
    assert s[2] == '(' && s[3] == 'b' && s[4] == '|' && s[5] == 'c';
    ScanOpen(s, 2, t);
    ScanInside(s, 3, 1, "(", t);
    assert "(" + [s[3]] == "(b";
    ScanInside(s, 4, 1, "(b", t);
    assert "(b" + [s[4]] == "(b|";
    ScanInside(s, 5, 1, "(b|", t);
    assert "(b|" + [s[5]] == "(b|c";
  }

  /** The group `(b|c)` at index 2 of `a&(b|c)` is one token. */
  lemma GroupInner(s: string, t: seq<string>)
    requires s == "a&(b|c)"
    ensures ScanFrom(s, Scan(2, 0, "", t)) == Ok(t + ["(b|c)"])
  {
    GroupBody(s, t);
    assert s[6] == ')';
    ScanClose(s, 6, "(b|c", t);
    assert "(b|c" + ")" == "(b|c)";
    assert ScanFrom(s, Scan(7, 0, "", t + ["(b|c)"])) == Ok(t + ["(b|c)"]);
  }

  lemma GroupScan(s: string)
    requires s == "a&(b|c)"
    ensures Tokens(s) == Ok(["a", "&", "(b|c)"])
  {
    assert s[0] == 'a' && s[1] == '&';
    var t: seq<string> := ["a", "&"];
    ScanChars(s, 0, []);
    assert [] + [[s[0]], [s[1]]] == t;
    GroupInner(s, t);
    assert t + ["(b|c)"] == ["a", "&", "(b|c)"];
  }

  /** A top-level group is one token: `a&(b|c)` is `a`, `&` and `(b|c)`. */
  lemma GroupExample()
    ensures Tokens("a&(b|c)") == Ok(["a", "&", "(b|c)"])
  {
    GroupScan("a&(b|c)");
  }

  lemma OpenGroupScan(s: string)
    requires s == "a(b"
    ensures Tokens(s) == Ok(["a"])
  {
    assert s[0] == 'a' && s[1] == '(' && s[2] == 'b';
    ScanChar(s, 0, []);
    assert [] + [[s[0]]] == ["a"];
    ScanOpen(s, 1, ["a"]);
    ScanInside(s, 2, 1, "(", ["a"]);
    assert "(" + [s[2]] == "(b";
    assert ScanFrom(s, Scan(3, 1, "(b", ["a"])) == Ok(["a"]);
  }

  /** A group still open at the end is dropped, and what came before it is kept:
      `a(b` is the single token `a`. */
  lemma OpenGroupExample()
    ensures Tokens("a(b") == Ok(["a"])
  {
    OpenGroupScan("a(b");
  }

  /** The contract of `TokensSound` rules out splitting a top-level group into
      its characters, and dropping what comes before a group left open. */
  lemma SoundnessExcludes()
    ensures !Placed(["(", "a", ")"])
    ensures forall g :: !TrailingGroup("a(b", [], g)
  {
    var ts := ["(", "a", ")"];
    assert ts[..0] == [] && !PlacedAt(ts, 0);
    var s := "a(b";
    assert s[..2] == "a(" && s[..2][..1] == "a" && s[..2][..1][..0] == "";
    assert Depth(s) == 1;
    assert StripWhitespace("a") == "a" && StripWhitespace("a(") == "a(";
    assert StripWhitespace(s) == s;
    assert Concat([]) == "";
    forall g ensures !TrailingGroup(s, [], g) {
      assert "" + g == g;
    }
  }

  /** Operators glue to their operands without spaces: `a|b&c->d` is seven tokens. */
  lemma OperatorsExample()
    ensures Tokens("a|b&c->d") == Ok(["a", "|", "b", "&", "c", "->", "d"])
  {
    OperatorsScan("a|b&c->d");
  }

  /** The index reported for `a -b` is that of the character after the `-`. */
  lemma MalformedArrowExample()
    ensures Tokens("a -b") == Err(Expected('>', 3))
  {
    var s := "a -b";
    assert s[0] == 'a' && s[1] == ' ' && s[2] == '-' && s[3] == 'b';
    var r0 := Step(s, Scan(0, 0, "", []));
    assert r0.value.tokens == ["a"];
    assert r0 == Ok(Scan(1, 0, "", ["a"]));
    assert Step(s, Scan(1, 0, "", ["a"])) == Ok(Scan(2, 0, "", ["a"]));
  }

  /** The first malformed operator of `s` is at 0, so its error is the only one
      the contract of `TokensSound` allows. */
  lemma {:induction false} MalformedAtStart(s: string, e: TokenError)
    requires |s| > 0 && !OperatorAt(s, 0) && FirstMalformed(s, e)
    ensures e == ErrorAt(s, 0)
  {
    assert OperatorsBefore(s, 0);
    assert FirstMalformed(s, ErrorAt(s, 0));
    FirstMalformedUnique(s, e, ErrorAt(s, 0));
  }

  /** `--` can only fail with "expected `>`" at 1, and `<<x` with "expected `-`" at 1. */
  lemma PinnedErrors(e1: TokenError, e2: TokenError)
    ensures FirstMalformed("--", e1) ==> e1 == Expected('>', 1)
    ensures FirstMalformed("<<x", e2) ==> e2 == Expected('-', 1)
  {
    var s1, s2 := "--", "<<x";
    assert s1[..0] == "" && s2[..0] == "";
    if FirstMalformed(s1, e1) {
      MalformedAtStart(s1, e1);
    }
    if FirstMalformed(s2, e2) {
      MalformedAtStart(s2, e2);
    }
  }

  /** Only the first malformed operator is reported: `-x-y` fails at index 1. */
  lemma FirstErrorExample()
    ensures Tokens("-x-y") == Err(Expected('>', 1))
  {
    var s := "-x-y";
    assert s[0] == '-' && s[1] == 'x';
  }

  /** Running off the end reports the length of the input. */
  lemma TruncatedIffExample()
    ensures Tokens("a<-") == Err(Expected('>', 3))
  {
    var s := "a<-";
    assert s[0] == 'a' && s[1] == '<' && s[2] == '-';
    var r0 := Step(s, Scan(0, 0, "", []));
    assert r0.value.tokens == ["a"];
    assert r0 == Ok(Scan(1, 0, "", ["a"]));
  }
}
