/** The truth-table component: the variables of an expression, and the rows of
    `T`/`F` assignments the table enumerates. */
module TruthTable {

  // ----- Variables -----

  /** The character class `[a-zA-Z]`. */
  predicate IsAsciiLetter(c: char) {
    ('a' <= c <= 'z') || ('A' <= c <= 'Z')
  }

  /** `chars.filter(c => c.match(/[a-zA-Z]/))`. */
  function Letters(s: string): string {
    if |s| == 0 then []
    else (if IsAsciiLetter(s[0]) then [s[0]] else []) + Letters(s[1..])
  }

  /** `new Set(...)` read back with `Array.from`: each character once, in order of
      first occurrence. */
  function Dedupe(s: string): string {
    if |s| == 0 then []
    else
      var d := Dedupe(s[..|s| - 1]);
      if s[|s| - 1] in d then d else d + [s[|s| - 1]]
  }

  /** Places `c` before the first element it does not exceed. */
  function Insert(c: char, xs: string): string {
    if |xs| == 0 then [c]
    else if c <= xs[0] then [c] + xs
    else [xs[0]] + Insert(c, xs[1..])
  }

  /** Array.prototype.sort on one-character strings: code-unit order. */
  function Sort(xs: string): string {
    if |xs| == 0 then [] else Insert(xs[0], Sort(xs[1..]))
  }

  /** Turns each character into a one-character string. */
  function Names(cs: string): (r: seq<string>)
    ensures |r| == |cs| && forall i :: 0 <= i < |cs| ==> r[i] == [cs[i]]
  {
    if |cs| == 0 then [] else [[cs[0]]] + Names(cs[1..])
  }

  /** The `vars` signal: the distinct letters of the expression, sorted. */
  function Vars(expression: string): seq<string> {
    Names(Sort(Dedupe(Letters(expression))))
  }

  predicate Sorted(xs: string) {
    forall i, j :: 0 <= i < j < |xs| ==> xs[i] <= xs[j]
  }

  predicate StrictlySorted(xs: string) {
    forall i, j :: 0 <= i < j < |xs| ==> xs[i] < xs[j]
  }

  predicate Distinct<X(==)>(xs: seq<X>) {
    forall i, j :: 0 <= i < j < |xs| ==> xs[i] != xs[j]
  }

  lemma {:induction false} LettersMembers(s: string)
    ensures forall c :: c in Letters(s) <==> IsAsciiLetter(c) && c in s
  {
    if |s| > 0 {
      LettersMembers(s[1..]);
      assert s == [s[0]] + s[1..];
    }
  }

  /** Deduplication keeps exactly the characters of its input, once each. */
  lemma {:induction false} DedupeFacts(s: string)
    ensures forall c :: c in Dedupe(s) <==> c in s
    ensures Distinct(Dedupe(s))
  {
    if |s| > 0 {
      var init := s[..|s| - 1];
      DedupeFacts(init);
      assert s == init + [s[|s| - 1]];
    }
  }

  lemma ConsSorted(a: char, rest: string)
    requires Sorted(rest) && forall k :: 0 <= k < |rest| ==> a <= rest[k]
    ensures Sorted([a] + rest)
  {
    var xs := [a] + rest;
    forall i, j | 0 <= i < j < |xs|
      ensures xs[i] <= xs[j]
    {
      if i > 0 {
        assert xs[i] == rest[i - 1] && xs[j] == rest[j - 1];
      } else {
        assert xs[j] == rest[j - 1];
      }
    }
  }

  lemma ConsStrict(a: char, rest: string)
    requires StrictlySorted(rest) && forall k :: 0 <= k < |rest| ==> a < rest[k]
    ensures StrictlySorted([a] + rest)
  {
    var xs := [a] + rest;
    forall i, j | 0 <= i < j < |xs|
      ensures xs[i] < xs[j]
    {
      if i > 0 {
        assert xs[i] == rest[i - 1] && xs[j] == rest[j - 1];
      } else {
        assert xs[j] == rest[j - 1];
      }
    }
  }

  lemma {:induction false} InsertPermutes(c: char, xs: string)
    ensures multiset(Insert(c, xs)) == multiset(xs) + multiset{c}
  {
    if |xs| > 0 && c > xs[0] {
      InsertPermutes(c, xs[1..]);
      assert xs == [xs[0]] + xs[1..];
    }
  }

  lemma {:induction false} InsertSorted(c: char, xs: string)
    requires Sorted(xs)
    ensures Sorted(Insert(c, xs))
  {
    if |xs| == 0 {
    } else if c <= xs[0] {
      ConsSorted(c, xs);
    } else {
      InsertSorted(c, xs[1..]);
      InsertPermutes(c, xs[1..]);
      var rest := Insert(c, xs[1..]);
      forall k | 0 <= k < |rest|
        ensures xs[0] <= rest[k]
      {
        assert rest[k] in multiset(xs[1..]) + multiset{c};
      }
      ConsSorted(xs[0], rest);
    }
  }

  /** Sorting yields an ordered permutation of its input. */
  lemma {:induction false} SortFacts(xs: string)
    ensures Sorted(Sort(xs))
    ensures multiset(Sort(xs)) == multiset(xs)
  {
    if |xs| > 0 {
      var rest := Sort(xs[1..]);
      assert Sort(xs) == Insert(xs[0], rest);
      SortFacts(xs[1..]);
      InsertSorted(xs[0], rest);
      InsertPermutes(xs[0], rest);
      assert xs == [xs[0]] + xs[1..];
      assert multiset(xs) == multiset(xs[1..]) + multiset{xs[0]};
    }
  }

  lemma {:induction false} InsertStrict(c: char, xs: string)
    requires StrictlySorted(xs) && c !in xs
    ensures StrictlySorted(Insert(c, xs))
  {
    if |xs| == 0 {
    } else if c <= xs[0] {
      ConsStrict(c, xs);
    } else {
      InsertStrict(c, xs[1..]);
      InsertPermutes(c, xs[1..]);
      var rest := Insert(c, xs[1..]);
      forall k | 0 <= k < |rest|
        ensures xs[0] < rest[k]
      {
        assert rest[k] in multiset(xs[1..]) + multiset{c};
      }
      ConsStrict(xs[0], rest);
    }
  }

  /** Sorting characters that occur once each gives a strictly ascending string. */
  lemma {:induction false} SortStrict(xs: string)
    requires Distinct(xs)
    ensures StrictlySorted(Sort(xs))
  {
    if |xs| > 0 {
      SortStrict(xs[1..]);
      SortFacts(xs[1..]);
      assert xs[0] !in multiset(Sort(xs[1..]));
      InsertStrict(xs[0], Sort(xs[1..]));
    }
  }

  /** The variables are one-character strings in strictly ascending order, so
      none repeats. */
  lemma VarsAscending(expression: string)
    ensures forall i :: 0 <= i < |Vars(expression)| ==> |Vars(expression)[i]| == 1
    ensures forall i, j :: 0 <= i < j < |Vars(expression)| ==> Vars(expression)[i][0] < Vars(expression)[j][0]
    ensures Distinct(Vars(expression))
  {
    var d := Dedupe(Letters(expression));
    DedupeFacts(Letters(expression));
    SortStrict(d);
  }

  lemma NamesMembers(cs: string)
    ensures forall c :: [c] in Names(cs) <==> c in cs
  {
    forall c
      ensures [c] in Names(cs) <==> c in cs
    {
      if [c] in Names(cs) {
        var i :| 0 <= i < |cs| && Names(cs)[i] == [c];
        assert cs[i] == c;
      }
      if c in cs {
        var i :| 0 <= i < |cs| && cs[i] == c;
        assert Names(cs)[i] == [c];
      }
    }
  }

  /** A one-character string is a variable exactly when it is an ASCII letter of
      the expression. */
  lemma VarsMembers(expression: string)
    ensures forall c :: [c] in Vars(expression) <==> IsAsciiLetter(c) && c in expression
  {
    var l := Letters(expression);
    var d := Dedupe(l);
    var cs := Sort(d);
    LettersMembers(expression);
    DedupeFacts(l);
    SortFacts(d);
    NamesMembers(cs);
    forall c
      ensures c in cs <==> c in d
    {
      assert c in multiset(cs) <==> c in multiset(d);
    }
  }

  // ----- Rows -----

  datatype TruthValue = T | F

  /** A table row: a value for each column. */
  type Row = map<string, TruthValue>

  /** Each row of `rows` under `{ [first]: v, ...row }`: the row's own entries win. */
  function Prefixed(first: string, v: TruthValue, rows: seq<Row>): (r: seq<Row>)
    ensures |r| == |rows|
  {
    seq(|rows|, i requires 0 <= i < |rows| => map[first := v] + rows[i])
  }

  /** The set of column names. */
  function Columns(cols: seq<string>): set<string> {
    set c | c in cols
  }

  /** `combinationsOf`. */
  function Combinations(cols: seq<string>): seq<Row>
    decreases |cols|
  {
    if |cols| <= 0 then []
    else if |cols| == 1 then [map[cols[0] := T], map[cols[0] := F]]
    else
      var rows := Combinations(cols[1..]);
      Prefixed(cols[0], T, rows) + Prefixed(cols[0], F, rows)
  }

  function Pow2(n: nat): (r: nat)
    ensures r >= 1
  {
    if n == 0 then 1 else 2 * Pow2(n - 1)
  }

  /** No columns, no rows. */
  lemma NoColumns()
    ensures Combinations([]) == []
  {
  }

  /** `n >= 1` columns give `2^n` rows. */
  lemma {:induction false} RowCount(cols: seq<string>)
    requires |cols| >= 1
    ensures |Combinations(cols)| == Pow2(|cols|)
  {
    if |cols| > 1 {
      RowCount(cols[1..]);
    }
  }

  /** Every row has exactly the columns as keys. */
  lemma {:induction false} RowKeys(cols: seq<string>)
    ensures forall k :: 0 <= k < |Combinations(cols)| ==> Combinations(cols)[k].Keys == Columns(cols)
  {
    if |cols| > 1 {
      RowKeys(cols[1..]);
      var rows := Combinations(cols[1..]);
      var n := |rows|;
      forall k | 0 <= k < 2 * n
        ensures Combinations(cols)[k].Keys == Columns(cols)
      {
        assert cols == [cols[0]] + cols[1..];
        if k < n {
          assert Combinations(cols)[k] == map[cols[0] := T] + rows[k];
        } else {
          assert Combinations(cols)[k] == map[cols[0] := F] + rows[k - n];
        }
      }
    }
  }

  // ----- Row order: the rows count up in binary, `T` standing for 0 and `F` for 1 -----

  /** Binary digit `e` of `k`, as `T` for 0 and `F` for 1. */
  function Digit(k: nat, e: nat): TruthValue {
    if e == 0 then (if k % 2 == 0 then T else F) else Digit(k / 2, e - 1)
  }

  lemma {:induction false} Pow2Add(a: nat, b: nat)
    ensures Pow2(a + b) == Pow2(a) * Pow2(b)
  {
    if b > 0 {
      Pow2Add(a, b - 1);
      assert Pow2(a + b) == 2 * Pow2(a + b - 1);
    }
  }

  /** Below `2^e`, digit `e` is 0. */
  lemma {:induction false} DigitLow(k: nat, e: nat)
    requires k < Pow2(e)
    ensures Digit(k, e) == T
  {
    if e > 0 {
      DigitLow(k / 2, e - 1);
    }
  }

  /** From `2^e` up to `2^(e+1)`, digit `e` is 1. */
  lemma {:induction false} DigitHigh(k: nat, e: nat)
    requires Pow2(e) <= k < 2 * Pow2(e)
    ensures Digit(k, e) == F
  {
    if e > 0 {
      DigitHigh(k / 2, e - 1);
    }
  }

  /** Adding a multiple of `2^(e+1)` leaves digit `e` unchanged. */
  lemma {:induction false} DigitShift(x: nat, e: nat, m: nat)
    ensures Digit(x + Pow2(e + 1) * m, e) == Digit(x, e)
  {
    var t := Pow2(e) * m;
    assert Pow2(e + 1) * m == 2 * t;
    if e > 0 {
      assert (x + 2 * t) / 2 == x / 2 + t;
      assert t == Pow2(e - 1 + 1) * m;
      DigitShift(x / 2, e - 1, m);
    }
  }

  /** A row's keys do not include a column that is not among `cols`. */
  lemma OutsideColumn(cols: seq<string>, c: string, k: nat)
    requires c !in cols && k < |Combinations(cols)|
    ensures c !in Combinations(cols)[k]
  {
    RowKeys(cols);
  }

  /** Distinct columns stay distinct without their first one, which is not among the others. */
  lemma DistinctTail(cols: seq<string>)
    requires |cols| >= 1 && Distinct(cols)
    ensures Distinct(cols[1..]) && cols[0] !in cols[1..]
  {
    var rest := cols[1..];
    forall a, b | 0 <= a < b < |rest|
      ensures rest[a] != rest[b]
    {
      assert rest[a] == cols[a + 1] && rest[b] == cols[b + 1];
    }
    forall a | 0 <= a < |rest|
      ensures rest[a] != cols[0]
    {
      assert rest[a] == cols[a + 1];
    }
  }

  /** Row `k` of more than one column: the `T` half, then the `F` half. */
  lemma RowSplit(cols: seq<string>, k: nat)
    requires |cols| > 1 && k < |Combinations(cols)|
    ensures var rows := Combinations(cols[1..]);
      k < |rows| ==> Combinations(cols)[k] == map[cols[0] := T] + rows[k]
    ensures var rows := Combinations(cols[1..]);
      k >= |rows| ==> Combinations(cols)[k] == map[cols[0] := F] + rows[k - |rows|]
  {
  }

  /** The first column of a row of more than one column is `T` in the first
      half and `F` in the second: binary digit `n - 1` of the row's index. */
  lemma FirstColumnDigit(cols: seq<string>, k: nat)
    requires |cols| > 1 && cols[0] !in cols[1..] && k < |Combinations(cols)|
    requires |Combinations(cols[1..])| == Pow2(|cols| - 1)
    ensures cols[0] in Combinations(cols)[k] && Combinations(cols)[k][cols[0]] == Digit(k, |cols| - 1)
  {
    var h := Pow2(|cols| - 1);
    RowSplit(cols, k);
    OutsideColumn(cols[1..], cols[0], if k < h then k else k - h);
    if k < h {
      DigitLow(k, |cols| - 1);
    } else {
      DigitHigh(k, |cols| - 1);
    }
  }

  /** Removing the top digit `n - 1` leaves the lower digits alone. */
  lemma HighHalfDigit(k: nat, n: nat, j: nat)
    requires 0 < j < n && Pow2(n - 1) <= k
    ensures Digit(k - Pow2(n - 1), n - 1 - j) == Digit(k, n - 1 - j)
  {
    Pow2Add(n - j, j - 1);
    assert n - j + (j - 1) == n - 1;
    assert k == (k - Pow2(n - 1)) + Pow2(n - 1 - j + 1) * Pow2(j - 1);
    DigitShift(k - Pow2(n - 1), n - 1 - j, Pow2(j - 1));
  }

  /** The same digit, however its position is written. */
  lemma SameDigit(k: nat, e1: nat, e2: nat)
    requires e1 == e2
    ensures Digit(k, e1) == Digit(k, e2)
  {
  }

  /** Column `j` of row `k` is binary digit `n - 1 - j` of `k`. */
  predicate DigitEntry(cols: seq<string>, k: nat, j: nat)
    requires k < |Combinations(cols)| && j < |cols|
  {
    cols[j] in Combinations(cols)[k] && Combinations(cols)[k][cols[j]] == Digit(k, |cols| - 1 - j)
  }

  /** Any other column of a row in the `T` half takes its entry, and its digit,
      from the same row of the other columns. */
  lemma OtherColumnLow(cols: seq<string>, k: nat, j: nat)
    requires |cols| > 1 && 0 < j < |cols| && k < |Combinations(cols[1..])| && k < |Combinations(cols)|
    requires DigitEntry(cols[1..], k, j - 1)
    ensures DigitEntry(cols, k, j)
  {
    RowSplit(cols, k);
    assert cols[j] == cols[1..][j - 1];
    SameDigit(k, |cols[1..]| - 1 - (j - 1), |cols| - 1 - j);
  }

  /** Any other column of a row in the `F` half takes its entry from the row of
      the other columns `h` places earlier, and removing the top digit leaves
      that column's digit alone. */
  lemma OtherColumnHigh(cols: seq<string>, k: nat, j: nat)
    requires |cols| > 1 && 0 < j < |cols|
    requires |Combinations(cols[1..])| == Pow2(|cols| - 1) <= k < |Combinations(cols)|
    requires DigitEntry(cols[1..], k - Pow2(|cols| - 1), j - 1)
    ensures DigitEntry(cols, k, j)
  {
    var rest := cols[1..];
    var rows := Combinations(rest);
    var k' := k - Pow2(|cols| - 1);
    var c := cols[j];
    RowSplit(cols, k);
    assert Combinations(cols)[k] == map[cols[0] := F] + rows[k'];
    assert c == rest[j - 1];
    assert c in rows[k'] && rows[k'][c] == Digit(k', |rest| - 1 - (j - 1));
    SameDigit(k', |rest| - 1 - (j - 1), |cols| - 1 - j);
    HighHalfDigit(k, |cols|, j);
    assert Combinations(cols)[k][c] == rows[k'][c];
  }

  /** Row `k` of more than one column gives column `j` digit `n - 1 - j` of `k`
      when every row of the other columns does so for them. */
  lemma ExtendDigits(cols: seq<string>)
    requires |cols| > 1 && cols[0] !in cols[1..]
    requires |Combinations(cols[1..])| == Pow2(|cols| - 1)
    requires forall k, j :: 0 <= k < |Combinations(cols[1..])| && 0 <= j < |cols[1..]| ==>
      DigitEntry(cols[1..], k, j)
    ensures forall k, j :: 0 <= k < |Combinations(cols)| && 0 <= j < |cols| ==> DigitEntry(cols, k, j)
  {
    var h := Pow2(|cols| - 1);
    assert |Combinations(cols)| == 2 * h;
    forall k, j | 0 <= k < |Combinations(cols)| && 0 <= j < |cols|
      ensures DigitEntry(cols, k, j)
    {
      if j == 0 {
        FirstColumnDigit(cols, k);
      } else if k < h {
        OtherColumnLow(cols, k, j);
      } else {
        OtherColumnHigh(cols, k, j);
      }
    }
  }

  /** A single column is `T` in row 0 and `F` in row 1: digit 0 of the index. */
  lemma SingleColumnDigits(cols: seq<string>)
    requires |cols| == 1
    ensures forall k, j :: 0 <= k < |Combinations(cols)| && 0 <= j < |cols| ==> DigitEntry(cols, k, j)
  {
    assert Digit(0, 0) == T && Digit(1, 0) == F;
  }

  /** For distinct columns, row `k` gives column `j` binary digit `n - 1 - j` of
      `k`: the first column is the most significant digit, so the rows with the
      first column `T` come first, and a single column gives `T` then `F`. */
  lemma {:induction false} RowDigits(cols: seq<string>)
    requires |cols| >= 1 && Distinct(cols)
    ensures forall k, j :: 0 <= k < |Combinations(cols)| && 0 <= j < |cols| ==> DigitEntry(cols, k, j)
  {
    if |cols| == 1 {
      SingleColumnDigits(cols);
    } else {
      DistinctTail(cols);
      RowDigits(cols[1..]);
      RowCount(cols[1..]);
      ExtendDigits(cols);
    }
  }

  // ----- Each assignment exactly once -----

  lemma PrefixInjective(first: string, v: TruthValue, r1: Row, r2: Row)
    requires r1.Keys == r2.Keys && first !in r1 && r1 != r2
    ensures map[first := v] + r1 != map[first := v] + r2
  {
    var k :| k in r1 && r1[k] != r2[k];
    assert (map[first := v] + r1)[k] == r1[k];
  }

  /** Row `k` of more than one column extends row `k'` of the others by the
      first column set to `v`: `T` in the first half, `F` in the second. */
  lemma RowAt(cols: seq<string>, k: nat) returns (v: TruthValue, k': nat)
    requires |cols| > 1 && k < |Combinations(cols)|
    ensures k' < |Combinations(cols[1..])|
    ensures Combinations(cols)[k] == map[cols[0] := v] + Combinations(cols[1..])[k']
    ensures k < |Combinations(cols[1..])| ==> v == T && k' == k
    ensures k >= |Combinations(cols[1..])| ==> v == F && k' == k - |Combinations(cols[1..])|
  {
    var n := |Combinations(cols[1..])|;
    RowSplit(cols, k);
    if k < n {
      v, k' := T, k;
    } else {
      v, k' := F, k - n;
    }
  }

  /** Extending two rows of a list without repeats, over the same keys, by a new
      column keeps them different. */
  lemma ExtendDistinct(first: string, v: TruthValue, rows: seq<Row>, x: nat, y: nat)
    requires Distinct(rows) && x < |rows| && y < |rows| && x != y
    requires rows[x].Keys == rows[y].Keys && first !in rows[x]
    ensures map[first := v] + rows[x] != map[first := v] + rows[y]
  {
    if y < x {
      assert rows[y] != rows[x];
    }
    PrefixInjective(first, v, rows[x], rows[y]);
  }

  /** Two rows in the same half of more than one column differ when the rows of
      the others do not repeat. */
  lemma SameHalfDiffer(cols: seq<string>, a: nat, b: nat)
    requires |cols| > 1 && cols[0] !in cols[1..] && a < b < |Combinations(cols)|
    requires var n := |Combinations(cols[1..])|; b < n || n <= a
    requires Distinct(Combinations(cols[1..]))
    ensures Combinations(cols)[a] != Combinations(cols)[b]
  {
    var va, a' := RowAt(cols, a);
    var vb, b' := RowAt(cols, b);
    RowKeys(cols[1..]);
    OutsideColumn(cols[1..], cols[0], a');
    ExtendDistinct(cols[0], va, Combinations(cols[1..]), a', b');
  }

  /** A row of the `T` half and one of the `F` half differ in the first column. */
  lemma HalvesDiffer(cols: seq<string>, a: nat, b: nat)
    requires |cols| > 1 && cols[0] !in cols[1..]
    requires a < |Combinations(cols[1..])| <= b < |Combinations(cols)|
    ensures Combinations(cols)[a] != Combinations(cols)[b]
  {
    var va, a' := RowAt(cols, a);
    var vb, b' := RowAt(cols, b);
    OutsideColumn(cols[1..], cols[0], a');
    OutsideColumn(cols[1..], cols[0], b');
    assert Combinations(cols)[a][cols[0]] == T;
    assert Combinations(cols)[b][cols[0]] == F;
  }

  /** For distinct columns no row repeats. */
  lemma {:induction false} RowsDistinct(cols: seq<string>)
    requires Distinct(cols)
    ensures Distinct(Combinations(cols))
  {
    if |cols| == 1 {
      assert map[cols[0] := T][cols[0]] != map[cols[0] := F][cols[0]];
    } else if |cols| > 1 {
      DistinctTail(cols);
      RowsDistinct(cols[1..]);
      var n := |Combinations(cols[1..])|;
      assert |Combinations(cols)| == 2 * n;
      forall a, b | 0 <= a < b < |Combinations(cols)|
        ensures Combinations(cols)[a] != Combinations(cols)[b]
      {
        if b < n || n <= a {
          SameHalfDiffer(cols, a, b);
        } else {
          HalvesDiffer(cols, a, b);
        }
      }
    }
  }

  /** A row over `c0` and the columns `rest` is `c0`'s entry together with the
      row of the others. */
  lemma SplitRow(row: Row, c0: string, rest: seq<string>) returns (tail: Row)
    requires c0 !in rest && row.Keys == Columns([c0] + rest)
    ensures tail.Keys == Columns(rest) && c0 in row && row == map[c0 := row[c0]] + tail
  {
    tail := map k | k in row && k != c0 :: row[k];
    assert c0 in [c0] + rest;
    forall k
      ensures k in tail <==> k in rest
    {
      assert k in rest ==> k in [c0] + rest;
      assert k in [c0] + rest && k != c0 ==> k in rest;
    }
  }

  /** A single column: both of its assignments are rows. */
  lemma SingleColumnComplete(cols: seq<string>, row: Row)
    requires |cols| == 1 && row.Keys == Columns(cols)
    ensures row in Combinations(cols)
  {
    var c0 := cols[0];
    assert cols == [c0] && c0 in row;
    assert row == map[c0 := row[c0]];
    if row[c0] == T {
      assert Combinations(cols)[0] == row;
    } else {
      assert Combinations(cols)[1] == row;
    }
  }

  /** A row extending, by the first column, a row of the others is a row. */
  lemma ExtendedIsRow(cols: seq<string>, row: Row, tail: Row, i: nat)
    requires |cols| > 1 && i < |Combinations(cols[1..])| && Combinations(cols[1..])[i] == tail
    requires cols[0] in row && row == map[cols[0] := row[cols[0]]] + tail
    ensures row in Combinations(cols)
  {
    var n := |Combinations(cols[1..])|;
    assert |Combinations(cols)| == 2 * n;
    var k := if row[cols[0]] == T then i else n + i;
    var v, k' := RowAt(cols, k);
    assert v == row[cols[0]] && k' == i;
    assert Combinations(cols)[k] == row;
  }

  /** For distinct columns every assignment of `T`/`F` to exactly those columns
      is a row. */
  lemma {:induction false} RowsComplete(cols: seq<string>, row: Row)
    requires |cols| >= 1 && Distinct(cols)
    requires row.Keys == Columns(cols)
    ensures row in Combinations(cols)
  {
    if |cols| == 1 {
      SingleColumnComplete(cols, row);
    } else {
      var c0 := cols[0];
      var rest := cols[1..];
      DistinctTail(cols);
      assert cols == [c0] + rest;
      var tail := SplitRow(row, c0, rest);
      RowsComplete(rest, tail);
      var i :| 0 <= i < |Combinations(rest)| && Combinations(rest)[i] == tail;
      ExtendedIsRow(cols, row, tail, i);
    }
  }

  /** The table of an expression with at least one variable: `2^n` rows, each
      assigning every variable and nothing else, each assignment exactly once. */
  lemma TableOfExpression(expression: string)
    requires |Vars(expression)| >= 1
    ensures var cols := Vars(expression);
      var rows := Combinations(cols);
      |rows| == Pow2(|cols|) && Distinct(rows)
      && (forall k :: 0 <= k < |rows| ==> rows[k].Keys == Columns(cols))
      && (forall row: Row :: row.Keys == Columns(cols) ==> row in rows)
  {
    var cols := Vars(expression);
    VarsAscending(expression);
    RowCount(cols);
    RowsDistinct(cols);
    RowKeys(cols);
    forall row: Row | row.Keys == Columns(cols)
      ensures row in Combinations(cols)
    {
      RowsComplete(cols, row);
    }
  }
}
