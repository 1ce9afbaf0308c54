# truth-table-gen in Dafny

This is a model of the logic core of truth-table-gen, a small Angular application. The user types a propositional formula and the application shows its truth table. The model covers the expression pipeline of `EvalService` and the table enumeration of `TruthTableComponent`:

- **Tokenizer** (`tokenize`). The input is split into tokens:
  - whitespace is skipped;
  - every other character outside any group is one token;
  - `->` and `<->` are one token each;
  - a whole parenthesised group is kept verbatim as one token;
  - a malformed arrow raises an error that carries an index.

  `Tokenizer.Tokenize` is the source's loop, as a method. It is proved equal to the function `Tokenizer.Tokens`, which the parser uses and about which the properties are proved.
- **Syntax.** Operators and their precedence table are `&` 4, `^` 3, `|` 2, `->` 1 and `<->` 0, together with `isOperator`. The tree has four kinds of node: empty, variable, negation and binary operator.
- **Parser** (`parse`, `handleNegation`, `handleOperator`, `parseToken`, `handleToken`). This is the source's precedence-climbing recursion, written as functions. The functions take a `Mode`. In `AsWritten` mode, parsing resumes at precedence 0 after an operator node is built, as the source does. In `Corrected` mode, it resumes at the caller's precedence (see Findings). `Parser.ParseToken` models `parseToken`; a group token is handled by `Parser.ParseGroup`, which tokenizes and parses the text between its outer parentheses.
- **Evaluator** (`evaluateAst`, `evaluateExpression`). There are two evaluators:
  - `Evaluator.EvalAsWritten` models `evaluateAst` with JavaScript's values, where a variable the assignment lacks is `undefined`. `Evaluator.EvaluateExpressionAsWritten` models `evaluateExpression` on top of it.
  - `Evaluator.Eval` is the intended two-valued reading of `evaluateAst`, in which a missing variable reads as false. `Evaluator.EvaluateExpression` is `evaluateExpression` with both corrections (see Findings). Both rest on `Parser.ParseExpression`, which models lines 57-58 of `evaluateExpression`: tokenize, then parse from an empty tree at precedence 0.
- **Truth table** (`vars`, `combinationsOf`). `TruthTable.Vars` models `vars`: the distinct ASCII letters of the expression, sorted. `TruthTable.Combinations` models `combinationsOf`: the rows of `T`/`F` assignments.

Some behaviours of the source are easy to misread. The model follows the source in each:

- **Equal precedence.** Operators of equal precedence nest to the right: `a -> b -> c` is `a -> (b -> c)`. The right operand is parsed at the operator's own precedence, and the stop test is a strict `<`, so a following operator of the same precedence is absorbed (`Parser.ThreeOperands`, `Parser.Ordered`).
- **Order of the halves.** `combinationsOf` puts the block with the first column `T` before the block with it `F`. A single column gives `T` then `F`. In the model, the rows count up in binary with `T` as 0 (`TruthTable.RowDigits`).
- **Letters.** Variables are the characters matching `[a-zA-Z]`, not arbitrary alphabetic characters. Any other character the tokenizer emits as a plain token, such as a digit, `>` or a stray `)`, still becomes a variable of the tree.
- **Dangling operators.** An operator with nothing after it, as in `a &`, is not an error. Its right operand is the empty tree, which evaluates to false (`Parser.DanglingOperator`).

## Model

| member | source | states |
|---|---|---|
| Tokenizer.Tokenize | src/app/services/eval/eval.service.ts:62-108 | The loop, with its look-ahead increments of the index, returns exactly the tokens or the error `Tokens` defines. |
| Tokenizer.Step | src/app/services/eval/eval.service.ts:67-105 | One iteration moves the index strictly forward and never past the end of the input. |
| Tokenizer.TokensSound | src/app/services/eval/eval.service.ts:62-108 | On success every token is a single non-whitespace character other than `-` and `<`, or `->`, or `<->`, or a balanced group. The tokens concatenate to the input with whitespace removed, except for the group still open at the end, if any, which is left out. A lone `(` token stands only where more parentheses have closed than opened before it, and a group only where all parentheses before it are closed, so a top-level group is always one token. On failure the error belongs to the first `-` or `<` outside any group that does not begin an arrow. After a `-` it is "expected `>`" at the next index. After a `<` it is "expected `-`" at the next index, or "expected `>`" at the one after when the `-` is there. |
| Tokenizer.SoundnessExcludes | src/app/services/eval/eval.service.ts:70-105 | That contract rejects `(`, `a`, `)` as the tokens of `(a)`, and no tokens at all for `a(b`. |
| Tokenizer.GroupExample | src/app/services/eval/eval.service.ts:70-85 | `a&(b\|c)` is the three tokens `a`, `&` and `(b\|c)`. |
| Tokenizer.OpenGroupExample | src/app/services/eval/eval.service.ts:70-105 | `a(b` is the single token `a`: the group left open at the end is dropped. |
| Tokenizer.FirstMalformedUnique | src/app/services/eval/eval.service.ts:87-102 | At most one error fits that description, so the contract of `TokensSound` fixes the error completely. |
| Tokenizer.PinnedErrors | src/app/services/eval/eval.service.ts:88-96 | `--` can only fail with "expected `>`" at 1, and `<<x` only with "expected `-`" at 1. |
| Tokenizer.FirstErrorExample | src/app/services/eval/eval.service.ts:87-92 | `-x-y` fails at index 1, after its first `-`, not at the second. |
| Tokenizer.TokensAccepted | src/app/services/eval/eval.service.ts:87-102 | Tokenizing fails exactly when some `-` outside any group is not followed by `>`, or some `<` outside any group is not followed by `->`. |
| Tokenizer.TokensShorter | src/app/services/eval/eval.service.ts:66-105 | The tokens together are no longer than the input, and none contains whitespace. |
| Tokenizer.TokensOfBlank | src/app/services/eval/eval.service.ts:68-69 | An empty or all-whitespace input has no tokens. |
| Tokenizer.ArrowExample | src/app/services/eval/eval.service.ts:87-92 | `a->b` is the three tokens `a`, `->`, `b`. |
| Tokenizer.OperatorsExample | src/app/services/eval/eval.service.ts:87-105 | `a\|b&c->d` is seven tokens. |
| Tokenizer.MalformedArrowExample | src/app/services/eval/eval.service.ts:87-91 | `a -b` fails with "expected `>`" at index 3, the character after the `-`. |
| Tokenizer.TruncatedIffExample | src/app/services/eval/eval.service.ts:93-101 | `a<-` fails with "expected `>`" at index 3, one past the end. |
| Syntax.OperatorOf | src/app/services/eval/eval.service.ts:4-16 | A token is an operator exactly when it is the symbol of one of the five operators, and it is that operator. |
| Parser.LexTokens | src/app/services/eval/eval.service.ts:162 | The parser's tokenizing succeeds exactly when `Tokens` does, with the same tokens, which together have no more characters than the input (`Chars(r.value) <= \|s\|`). Tokenizer errors become parse errors. |
| Parser.Parse | src/app/services/eval/eval.service.ts:110-129 | The tokens handed back are a suffix of the input tokens. |
| Parser.HandleNegation | src/app/services/eval/eval.service.ts:131-138 | The tokens handed back are a suffix of the input tokens. |
| Parser.HandleOperator | src/app/services/eval/eval.service.ts:140-157 | The tokens handed back are a suffix of the input tokens. |
| Parser.HandleToken | src/app/services/eval/eval.service.ts:174-190 | The tokens handed back are a suffix of the input tokens. |
| Parser.ParseConsumesAll | src/app/services/eval/eval.service.ts:147-148 | At precedence 0 no operator is ever handed back, so a successful top-level parse consumes every token (both modes). |
| Parser.ParseBlank | src/app/services/eval/eval.service.ts:116-117 | No tokens give back the tree built so far. An empty or blank expression parses to the empty tree. |
| Parser.ParseDropsRoot | src/app/services/eval/eval.service.ts:131-138 | A token list that does not start with an operator gives the same result whatever the tree built so far: negations and operands discard it. |
| Parser.AdjacentOperands | src/app/services/eval/eval.service.ts:174-190 | Two operands in a row parse to the second: an operand discards the tree built so far. |
| Parser.GroupIsTransparent | src/app/services/eval/eval.service.ts:159-164 | A group token `(e)` parses to the same tree, or the same error, as the expression `e`. |
| Parser.NegationTakesOneToken | src/app/services/eval/eval.service.ts:131-138 | `~` applies to exactly the next token, parsed on its own. Parsing continues after it at the same precedence. |
| Parser.NegationWithoutOperand | src/app/services/eval/eval.service.ts:131-136 | A `~` with nothing after it is an error. |
| Parser.ThreeOperands | src/app/services/eval/eval.service.ts:140-157 | `x o1 y o2 z` is `(x o1 y) o2 z` when `o1` binds strictly tighter, and `x o1 (y o2 z)` otherwise. This holds in both modes. |
| Parser.CorrectedParsesFlat | src/app/services/eval/eval.service.ts:140-157 | With precedence resuming at the caller's level, every alternation of operands (a variable, or `~` and a variable) and operators, without parentheses, parses completely. Its tree keeps the tokens in order and nests every operator as the precedence table asks. |
| Parser.TailCovered | src/app/services/eval/eval.service.ts:110-157 | In either mode, parsing an operator tail (operators each followed by an operand) succeeds. It hands back an operator tail, and the tree's tokens followed by what is handed back are the tree so far followed by the input. |
| Parser.ParsesFlat | src/app/services/eval/eval.service.ts:110-157 | In either mode, every alternation of operands (a variable, or `~` and a variable) and operators, without parentheses, parses completely into a tree that keeps the tokens in order. |
| Parser.DanglingOperator | src/app/services/eval/eval.service.ts:140-156 | `x op` with nothing after the operator parses to the node of `x` and the empty tree. It is not an error. |
| Parser.FourOperands | src/app/services/eval/eval.service.ts:150-156 | `x o1 y o2 z o3 w` with `o3` looser than `o1` and `o1` no tighter than `o2`. The source builds `x o1 ((y o2 z) o3 w)`; the corrected parser builds `(x o1 (y o2 z)) o3 w`. |
| Parser.AsWrittenMisnests | src/app/services/eval/eval.service.ts:156 | The source's tree for `a \| b & c -> d` is `a \| ((b & c) -> d)`, which violates the precedence order. |
| Parser.MisnestedIsFlat | src/app/services/eval/eval.service.ts:140-157 | `a \| b & c -> d` is an alternation of operands and operators without parentheses, so the corrected parser nests it correctly. |
| Evaluator.Connectives | src/app/services/eval/eval.service.ts:192-217 | The empty tree is false and negation inverts. `&`, `\|`, `->`, `^` and `<->` are conjunction, disjunction, implication, exclusive or and equivalence. |
| Evaluator.EvalDependsOnFreeVars | src/app/services/eval/eval.service.ts:192-217 | The value depends only on the values of the variables that occur in the tree. |
| Evaluator.MissingIsFalse | src/app/services/eval/eval.service.ts:199 | A variable the assignment lacks behaves exactly as one bound to false. |
| Evaluator.AsWrittenWhenBound | src/app/services/eval/eval.service.ts:192-217 | When every variable of the tree is bound, the source's JavaScript evaluation is the boolean `Eval` computes. |
| Evaluator.AsWrittenTruthyWithoutIff | src/app/services/eval/eval.service.ts:198-215 | Without `<->`, the source's result is truthy exactly when `Eval` is true, even with unbound variables. |
| Evaluator.IffWithMissingVariable | src/app/services/eval/eval.service.ts:216-217 | For `a <-> 1` with `a` false, the source gives false, but true once `1` is bound to false. `Eval` gives true. |
| Evaluator.BlankIsFalse | src/app/services/eval/eval.service.ts:56-59 | An empty or blank expression evaluates to false. |
| Evaluator.MalformedIsError | src/app/services/eval/eval.service.ts:56-59 | A tokenizer error is the result of the whole evaluation. |
| Evaluator.FlatEvaluates | src/app/services/eval/eval.service.ts:56-59 | An expression that tokenizes into an alternation of operands (a variable, or `~` and a variable) and operators, without parentheses, always evaluates, both in the source and in the corrected pipeline. Both parse it into a tree that keeps its tokens in order. |
| Evaluator.MisnestedTrees | src/app/services/eval/eval.service.ts:56-59 | The source's tree for the string `a\|b&c->d`, and the corrected one. |
| Evaluator.MisnestingChangesValue | src/app/services/eval/eval.service.ts:56-59 | With `a` true and `b`, `c`, `d` false, the source evaluates `a\|b&c->d` to true. The intended reading gives false. |
| TruthTable.LettersMembers | src/app/truth-table/truth-table.component.ts:16-19 | The filter keeps exactly the ASCII letters of the expression. |
| TruthTable.DedupeFacts | src/app/truth-table/truth-table.component.ts:18-19 | The set keeps exactly the characters it is given, each once. |
| TruthTable.SortFacts | src/app/truth-table/truth-table.component.ts:20 | Sorting gives an ordered permutation of its input. |
| TruthTable.SortStrict | src/app/truth-table/truth-table.component.ts:20 | Sorting characters that occur once each gives a strictly ascending sequence. |
| TruthTable.VarsAscending | src/app/truth-table/truth-table.component.ts:15-21 | The variables are one-character strings in strictly ascending order, so none repeats. |
| TruthTable.VarsMembers | src/app/truth-table/truth-table.component.ts:15-21 | A one-character string is a variable exactly when it is an ASCII letter occurring in the expression. |
| TruthTable.NoColumns | src/app/truth-table/truth-table.component.ts:28 | No columns give no rows. |
| TruthTable.RowCount | src/app/truth-table/truth-table.component.ts:26-35 | `n >= 1` columns give exactly `2^n` rows. |
| TruthTable.RowKeys | src/app/truth-table/truth-table.component.ts:29-34 | Every row has exactly the given columns as keys. |
| TruthTable.RowDigits | src/app/truth-table/truth-table.component.ts:26-35 | For distinct columns, column `j` of row `k` is binary digit `n-1-j` of `k`, with `T` as 0. So the first half has the first column `T`, the second half has it `F`, and a single column gives `T` then `F`. |
| TruthTable.RowsDistinct | src/app/truth-table/truth-table.component.ts:31-34 | For distinct columns no row repeats. |
| TruthTable.RowsComplete | src/app/truth-table/truth-table.component.ts:26-35 | For distinct columns every `T`/`F` assignment to exactly those columns is a row. |
| TruthTable.TableOfExpression | src/app/truth-table/truth-table.component.ts:15-25 | An expression with `n >= 1` variables has a table of `2^n` rows. Each row assigns exactly the variables, and each assignment appears exactly once. |

## Left out

- Angular plumbing is left out because it is UI and reactivity, not logic:
  - the dependency injection of `EvalService`;
  - the component decorator;
  - the `input`/`computed` signals (`vars` and `combinationsOf` become plain functions);
  - the application component's input-event handler.
- These files are not part of this model:
  - the legend component, which is static display data;
  - the component's template, `truth-table.component.html`. How it evaluates each row is assumed, not read from the source: the model takes it that every row's `T`/`F` entries become booleans and are passed as the assignment, so only the letters `vars` finds are bound. The definition of `TruthValues`, which `eval.service.ts` imports at line 2, is not part of this model either;
  - the component's smoke test.
- The regular expressions become predicates. `\s` becomes a fixed set of whitespace characters (`Tokenizer.IsWhitespace`), and `[a-zA-Z]` becomes `TruthTable.IsAsciiLetter`.
- Strings are sequences of Unicode scalar values, not UTF-16 code units. A character outside the Basic Multilingual Plane is one token here but two code units in JavaScript.
- `ParseError` exceptions become a `Result`:
  - a tokenizer error keeps its message as the expected symbol, together with its index;
  - the `TypeError` that a trailing `~` causes (`parseToken(undefined)`) becomes `MissingOperand`;
  - the two `Unsupported Operator` and `Invalid tree node` throws cannot happen over the closed datatypes, so they are not modelled.
- `isOperator` uses `in`, which also looks at the object's prototype chain. The model checks only the five operator symbols. The tokenizer produces only one-character tokens, the two arrows and tokens starting with `(`, and none of these names a prototype property.
- `Array.prototype.sort` is modelled as an insertion sort. `TruthTable.SortFacts` proves it gives the ordered permutation, which is the only result any correct sort can give on distinct characters.
- Parser.CorrectedParsesFlat: stated for alternations of operands (a variable, or `~` and a variable) and operators, without parentheses. Other token lists without parentheses, such as `a b` or `a & ~`, are not covered: the first keeps only its last operand and the second is an error. The group case follows from `Parser.GroupIsTransparent`, but it is not proved for arbitrary nesting.
- Parser.ParsesFlat: stated for the same alternations, for the same reason. `Evaluator.FlatEvaluates` inherits this.
- Parser.ThreeOperands: stated for operands that are plain variables.
- Parser.FourOperands: stated for operands that are plain variables.
- TruthTable.RowDigits: stated only for distinct columns, which is what `vars` supplies. With repeated columns the spread overwrites entries, and the model follows that without a separate lemma.
- TruthTable.RowsDistinct: stated only for distinct columns, for the same reason.
- TruthTable.RowsComplete: stated only for distinct columns, for the same reason.

## Findings

| source | as written | input that shows it | evidently intended | confidence | as-written member | corrected member |
|---|---|---|---|---|---|---|
| src/app/services/eval/eval.service.ts:156 | After building an operator node, `handleOperator` goes on parsing at the default precedence 0 instead of the precedence it was called with. A looser operator after a tighter one is then absorbed into the right operand. | `a \| b & c -> d` with `a` true and `b`, `c`, `d` false: the source builds `a \| ((b & c) -> d)`, which is true | `(a \| (b & c)) -> d`, which is false. Parsing should resume at the caller's precedence, so that every operator nests as the precedence table asks. | high; not executed | Parser.AsWrittenMisnests | Parser.CorrectedParsesFlat |
| src/app/services/eval/eval.service.ts:199 | A variable the assignment lacks evaluates to `undefined`. `&`, `\|`, `->` and `^` treat it as false, but `<->` compares with `===`, and `undefined` differs from `false`. | `a <-> 1` with `a` false, assuming the template binds only the letters `vars` finds: the source gives false | A missing variable reads as false throughout, giving true | medium; not executed | Evaluator.IffWithMissingVariable | Evaluator.MissingIsFalse |

`Evaluator.EvaluateExpression` uses both corrections. `Evaluator.EvaluateExpressionAsWritten` is the source's behaviour.
