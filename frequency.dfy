/**
 * The frequency table: one (symbol, count) row per distinct byte of the
 * input, built in first-seen order while the input is read, then sorted by
 * count, most frequent first.
 */
module Frequency {
  import opened Bits

  /** One row of the table: a byte value and how often it occurs. */
  datatype Occurrence = Occurrence(symbol: byte, count: nat)

  /** The byte values that occur in `input`. */
  function SymbolsIn(input: seq<byte>): set<byte>
  {
    set k | 0 <= k < |input| :: input[k]
  }

  /** The byte values that have a row in the table. */
  function Symbols(occ: seq<Occurrence>): set<byte>
  {
    set k | 0 <= k < |occ| :: occ[k].symbol
  }

  /** Total of the counts of all rows. */
  function SumCounts(occ: seq<Occurrence>): nat
  {
    if occ == [] then 0 else SumCounts(occ[..|occ| - 1]) + occ[|occ| - 1].count
  }

  ghost predicate DistinctSymbols(occ: seq<Occurrence>)
  {
    forall i, j :: 0 <= i < j < |occ| ==> occ[i].symbol != occ[j].symbol
  }

  /** Every byte value has at most one row, and every row counts at least one occurrence. */
  ghost predicate WellFormed(occ: seq<Occurrence>)
  {
    DistinctSymbols(occ) && forall k :: 0 <= k < |occ| ==> occ[k].count >= 1
  }

  predicate NonIncreasing(occ: seq<Occurrence>)
  {
    forall i, j :: 0 <= i < j < |occ| ==> occ[i].count >= occ[j].count
  }

  /** Index of the first row for `c`, or `|occ|` when there is none (the `std::find_if` lookup). */
  function FindSymbol(occ: seq<Occurrence>, c: byte): (i: nat)
    ensures i <= |occ|
    ensures i < |occ| ==> occ[i].symbol == c
    ensures forall j :: 0 <= j < i ==> occ[j].symbol != c
  {
    if occ == [] then 0
    else if occ[0].symbol == c then 0
    else 1 + FindSymbol(occ[1..], c)
  }

  /** The count recorded for `c`, zero when it has no row. */
  function CountOf(occ: seq<Occurrence>, c: byte): nat
  {
    var i := FindSymbol(occ, c);
    if i < |occ| then occ[i].count else 0
  }

  /** Reading one byte `c`: bump its row, or append a row with count 1. */
  function Bump(occ: seq<Occurrence>, c: byte): seq<Occurrence>
  {
    var i := FindSymbol(occ, c);
    if i < |occ| then occ[i := Occurrence(c, occ[i].count + 1)] else occ + [Occurrence(c, 1)]
  }

  /** The table after reading all of `input`, starting from `occ`. */
  function Tally(occ: seq<Occurrence>, input: seq<byte>): seq<Occurrence>
  {
    if input == [] then occ else Bump(Tally(occ, input[..|input| - 1]), input[|input| - 1])
  }

  // ---------------------------------------------------------------------------
  // Counting

  lemma {:induction false} SumCountsUpdate(occ: seq<Occurrence>, i: nat, x: Occurrence)
    requires i < |occ|
    ensures SumCounts(occ[i := x]) + occ[i].count == SumCounts(occ) + x.count
    decreases |occ|
  {
    var n := |occ| - 1;
    if i < n {
      assert occ[i := x][..n] == occ[..n][i := x];
      SumCountsUpdate(occ[..n], i, x);
    } else {
      assert occ[i := x][..n] == occ[..n];
    }
  }

  /** In a table without duplicate rows, a row's own symbol finds that row. */
  lemma FindOwnRow(occ: seq<Occurrence>, k: nat)
    requires DistinctSymbols(occ) && k < |occ|
    ensures FindSymbol(occ, occ[k].symbol) == k
  {
  }

  /** Reading one byte adds one to the total. */
  lemma BumpSum(occ: seq<Occurrence>, c: byte)
    ensures SumCounts(Bump(occ, c)) == SumCounts(occ) + 1
  {
    var i := FindSymbol(occ, c);
    if i < |occ| {
      SumCountsUpdate(occ, i, Occurrence(c, occ[i].count + 1));
    } else {
      var r := occ + [Occurrence(c, 1)];
      assert r[..|r| - 1] == occ;
    }
  }

  /** Reading one byte gives it a row and keeps every other row's symbol. */
  lemma BumpSymbols(occ: seq<Occurrence>, c: byte)
    ensures Symbols(Bump(occ, c)) == Symbols(occ) + {c}
  {
    var i := FindSymbol(occ, c);
    var r := Bump(occ, c);
    if i < |occ| {
      assert forall k :: 0 <= k < |r| ==> r[k].symbol == occ[k].symbol;
      forall s | s in Symbols(occ) ensures s in Symbols(r) {
        var k :| 0 <= k < |occ| && occ[k].symbol == s;
        assert r[k].symbol == s;
      }
    } else {
      forall s | s in Symbols(occ) ensures s in Symbols(r) {
        var k :| 0 <= k < |occ| && occ[k].symbol == s;
        assert r[k].symbol == s;
      }
      assert r[|occ|].symbol == c;
    }
  }

  /** Reading one byte keeps the table free of duplicates and of empty rows. */
  lemma BumpWellFormed(occ: seq<Occurrence>, c: byte)
    requires WellFormed(occ)
    ensures WellFormed(Bump(occ, c))
  {
    var i := FindSymbol(occ, c);
    var r := Bump(occ, c);
    if i < |occ| {
      assert forall k :: 0 <= k < |r| ==> r[k].symbol == occ[k].symbol;
    } else {
      assert forall k :: 0 <= k < |occ| ==> r[k] == occ[k];
    }
  }

  /** Reading `c` adds one to the count of `c` and leaves every other count alone. */
  lemma BumpCount(occ: seq<Occurrence>, c: byte, s: byte)
    requires DistinctSymbols(occ)
    ensures CountOf(Bump(occ, c), s) == CountOf(occ, s) + (if s == c then 1 else 0)
  {
    var i := FindSymbol(occ, c);
    var j := FindSymbol(occ, s);
    var r := Bump(occ, c);
    if i < |occ| {
      assert forall k :: 0 <= k < |r| ==> r[k].symbol == occ[k].symbol;
      if j < |occ| {
        FindOwnRow(r, j);
      } else {
        assert forall k :: 0 <= k < |r| ==> r[k].symbol != s;
      }
    } else {
      assert forall k :: 0 <= k < |occ| ==> r[k] == occ[k];
      if j < |occ| {
        FindOwnRow(r, j);
      } else if s == c {
        FindOwnRow(r, |occ|);
      } else {
        assert forall k :: 0 <= k < |r| ==> r[k].symbol != s;
      }
    }
  }

  lemma SymbolsInLast(input: seq<byte>)
    requires input != []
    ensures SymbolsIn(input) == SymbolsIn(input[..|input| - 1]) + {input[|input| - 1]}
  {
    var init := input[..|input| - 1];
    forall x | x in SymbolsIn(input) ensures x in SymbolsIn(init) + {input[|input| - 1]} {
      var k :| 0 <= k < |input| && input[k] == x;
      if k < |init| {
        assert init[k] == x;
      }
    }
    forall x | x in SymbolsIn(init) ensures x in SymbolsIn(input) {
      var k :| 0 <= k < |init| && init[k] == x;
      assert input[k] == x;
    }
  }

  /** Reading `input` adds its length to the total and its bytes to the symbols, keeping the table well formed. */
  lemma {:induction false} TallyFacts(occ: seq<Occurrence>, input: seq<byte>)
    requires WellFormed(occ)
    ensures WellFormed(Tally(occ, input))
    ensures SumCounts(Tally(occ, input)) == SumCounts(occ) + |input|
    ensures Symbols(Tally(occ, input)) == Symbols(occ) + SymbolsIn(input)
    decreases |input|
  {
    if input != [] {
      var init, c := input[..|input| - 1], input[|input| - 1];
      var before := Tally(occ, init);
      TallyFacts(occ, init);
      BumpWellFormed(before, c);
      BumpSum(before, c);
      BumpSymbols(before, c);
      SymbolsInLast(input);
    }
  }

  /** Reading `input` adds to the count of `s` the number of times `s` occurs in it. */
  lemma {:induction false} TallyCount(occ: seq<Occurrence>, input: seq<byte>, s: byte)
    requires WellFormed(occ)
    ensures CountOf(Tally(occ, input), s) == CountOf(occ, s) + multiset(input)[s]
    decreases |input|
  {
    if input != [] {
      var init, c := input[..|input| - 1], input[|input| - 1];
      TallyFacts(occ, init);
      TallyCount(occ, init, s);
      BumpCount(Tally(occ, init), c, s);
      assert input == init + [c];
    }
  }

  /**
   * The table built from an empty one: one row per distinct byte of the input,
   * each counting exactly that byte's occurrences (so at least one), with
   * counts adding up to the input length.
   */
  lemma CountedTable(input: seq<byte>)
    ensures var occ := Tally([], input);
      && DistinctSymbols(occ)
      && Symbols(occ) == SymbolsIn(input)
      && (forall k :: 0 <= k < |occ| ==> occ[k].count == multiset(input)[occ[k].symbol] >= 1)
      && SumCounts(occ) == |input|
  {
    TallyFacts([], input);
    var occ := Tally([], input);
    forall k | 0 <= k < |occ| ensures occ[k].count == multiset(input)[occ[k].symbol] {
      FindOwnRow(occ, k);
      TallyCount([], input, occ[k].symbol);
    }
  }

  // ---------------------------------------------------------------------------
  // Sorting by count, most frequent first

  /** Inserts `x` before the first row it does not count fewer than. */
  function InsertByCount(x: Occurrence, s: seq<Occurrence>): (r: seq<Occurrence>)
    requires NonIncreasing(s)
    ensures NonIncreasing(r)
    ensures |r| == |s| + 1 && (r[0] == x || (|s| > 0 && r[0] == s[0]))
  {
    if s == [] then [x]
    else if x.count >= s[0].count then
      ConsNonIncreasing(x, s);
      [x] + s
    else
      var rest := InsertByCount(x, s[1..]);
      ConsNonIncreasing(s[0], rest);
      [s[0]] + rest
  }

  /** A row counting at least as much as the first row of a non-increasing table can head it. */
  lemma ConsNonIncreasing(y: Occurrence, r: seq<Occurrence>)
    requires NonIncreasing(r) && (r != [] ==> r[0].count <= y.count)
    ensures NonIncreasing([y] + r)
  {
    var yr := [y] + r;
    forall i, j | 0 <= i < j < |yr| ensures yr[i].count >= yr[j].count {
      assert yr[j] == r[j - 1];
      if i > 0 {
        assert yr[i] == r[i - 1];
      } else if j > 1 {
        assert r[0].count >= r[j - 1].count;
      }
    }
  }

  /** Inserting a row adds exactly that row. */
  lemma {:induction false} InsertPermutes(x: Occurrence, s: seq<Occurrence>)
    requires NonIncreasing(s)
    ensures multiset(InsertByCount(x, s)) == multiset(s) + multiset{x}
    decreases |s|
  {
    if s != [] && x.count < s[0].count {
      assert s == [s[0]] + s[1..];
      InsertPermutes(x, s[1..]);
    }
  }

  /** One count-descending ordering of the table (the library sort's tie order is not modelled). */
  function SortByCount(s: seq<Occurrence>): (r: seq<Occurrence>)
    ensures NonIncreasing(r)
    ensures |r| == |s|
  {
    if s == [] then [] else InsertByCount(s[0], SortByCount(s[1..]))
  }

  /** Sorting keeps exactly the rows it is given. */
  lemma {:induction false} SortPermutes(s: seq<Occurrence>)
    ensures multiset(SortByCount(s)) == multiset(s)
  {
    if s != [] {
      assert s == [s[0]] + s[1..];
      SortPermutes(s[1..]);
      InsertPermutes(s[0], SortByCount(s[1..]));
    }
  }

  lemma {:induction false} SumCountsFront(x: Occurrence, s: seq<Occurrence>)
    ensures SumCounts([x] + s) == x.count + SumCounts(s)
    decreases |s|
  {
    if s != [] {
      var n := |s| - 1;
      assert ([x] + s)[..|s|] == [x] + s[..n];
      SumCountsFront(x, s[..n]);
    } else {
      assert [x] + s == [x] && [x][..0] == [];
    }
  }

  lemma SymbolsFront(x: Occurrence, s: seq<Occurrence>)
    ensures Symbols([x] + s) == {x.symbol} + Symbols(s)
  {
    var r := [x] + s;
    forall c | c in Symbols(s) ensures c in Symbols(r) {
      var k :| 0 <= k < |s| && s[k].symbol == c;
      assert r[k + 1].symbol == c;
    }
    assert r[0].symbol == x.symbol;
  }

  lemma {:induction false} InsertSum(x: Occurrence, s: seq<Occurrence>)
    requires NonIncreasing(s)
    ensures SumCounts(InsertByCount(x, s)) == x.count + SumCounts(s)
    decreases |s|
  {
    if s == [] || x.count >= s[0].count {
      SumCountsFront(x, s);
    } else {
      assert s == [s[0]] + s[1..];
      InsertSum(x, s[1..]);
      SumCountsFront(s[0], s[1..]);
      SumCountsFront(s[0], InsertByCount(x, s[1..]));
    }
  }

  lemma {:induction false} InsertSymbols(x: Occurrence, s: seq<Occurrence>)
    requires NonIncreasing(s)
    ensures Symbols(InsertByCount(x, s)) == {x.symbol} + Symbols(s)
    decreases |s|
  {
    if s == [] || x.count >= s[0].count {
      SymbolsFront(x, s);
    } else {
      assert s == [s[0]] + s[1..];
      InsertSymbols(x, s[1..]);
      SymbolsFront(s[0], s[1..]);
      SymbolsFront(s[0], InsertByCount(x, s[1..]));
    }
  }

  /** A row for a new symbol, counting at least one, can be put in front of a well-formed table. */
  lemma ConsWellFormed(x: Occurrence, s: seq<Occurrence>)
    requires WellFormed(s) && x.count >= 1 && x.symbol !in Symbols(s)
    ensures WellFormed([x] + s)
  {
    var r := [x] + s;
    forall i, j | 0 <= i < j < |r| ensures r[i].symbol != r[j].symbol {
      assert r[j] == s[j - 1];
      if i > 0 {
        assert r[i] == s[i - 1];
      }
    }
  }

  lemma {:induction false} InsertWellFormed(x: Occurrence, s: seq<Occurrence>)
    requires NonIncreasing(s) && WellFormed(s) && x.count >= 1 && x.symbol !in Symbols(s)
    ensures WellFormed(InsertByCount(x, s))
    decreases |s|
  {
    if s == [] || x.count >= s[0].count {
      ConsWellFormed(x, s);
    } else {
      var t := s[1..];
      assert NonIncreasing(t) && WellFormed(t) && x.symbol !in Symbols(t) && s[0].symbol !in {x.symbol} + Symbols(t) by {
        assert s == [s[0]] + t;
        SymbolsFront(s[0], t);
      }
      InsertWellFormed(x, t);
      InsertSymbols(x, t);
      ConsWellFormed(s[0], InsertByCount(x, t));
    }
  }

  /** Two tables holding the same rows, in whatever order, have the same symbols. */
  lemma PermutationSymbols(a: seq<Occurrence>, b: seq<Occurrence>)
    requires multiset(a) == multiset(b)
    ensures Symbols(a) == Symbols(b)
  {
    forall s | s in Symbols(a) ensures s in Symbols(b) {
      var k :| 0 <= k < |a| && a[k].symbol == s;
      assert a[k] in multiset(b);
      var j :| 0 <= j < |b| && b[j] == a[k];
    }
    forall s | s in Symbols(b) ensures s in Symbols(a) {
      var k :| 0 <= k < |b| && b[k].symbol == s;
      assert b[k] in multiset(a);
      var j :| 0 <= j < |a| && a[j] == b[k];
    }
  }

  /** Sorting keeps every row: the same symbols, the same total, still well formed. */
  lemma {:induction false} SortKeepsTable(s: seq<Occurrence>)
    requires WellFormed(s)
    ensures WellFormed(SortByCount(s))
    ensures Symbols(SortByCount(s)) == Symbols(s)
    ensures SumCounts(SortByCount(s)) == SumCounts(s)
  {
    if s != [] {
      assert s == [s[0]] + s[1..];
      SortKeepsTable(s[1..]);
      InsertSum(s[0], SortByCount(s[1..]));
      InsertSymbols(s[0], SortByCount(s[1..]));
      InsertWellFormed(s[0], SortByCount(s[1..]));
      SumCountsFront(s[0], s[1..]);
      SymbolsFront(s[0], s[1..]);
      assert s[0].symbol !in Symbols(s[1..]);
    }
  }
}
