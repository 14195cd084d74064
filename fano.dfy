/**
 * The Shannon-Fano code builder. A span of the sorted frequency table is cut
 * after the longest prefix whose running count stays within half of the sum
 * handed down for the span; the cut is clamped so that both halves are
 * non-empty; every row of the left half gets bit `false` appended to its code
 * and every row of the right half bit `true`; then each half is processed the
 * same way. The sums handed down are the greedy prefix sum (left) and the
 * rest of the parent's sum (right), both taken before the clamp.
 */
module Fano {
  import opened Bits
  import opened Frequency

  /** Sum of the counts of the first `k` rows of `span`. */
  function PrefixSum(span: seq<Occurrence>, k: nat): nat
    requires k <= |span|
  {
    if k == 0 then 0 else PrefixSum(span, k - 1) + span[k - 1].count
  }

  /**
   * The greedy scan from row `k` on: it stops at the first row whose count
   * would take the running sum past `half`, or at the end of the span.
   */
  function GreedyFrom(span: seq<Occurrence>, half: nat, k: nat): (i: nat)
    requires k <= |span| && PrefixSum(span, k) <= half
    ensures k <= i <= |span|
    ensures PrefixSum(span, i) <= half
    ensures i < |span| ==> PrefixSum(span, i + 1) > half
    decreases |span| - k
  {
    if k < |span| && PrefixSum(span, k + 1) <= half then GreedyFrom(span, half, k + 1) else k
  }

  /** The greedy cut of a span whose sum is taken to be `vecSum`, before the clamp. */
  function Greedy(span: seq<Occurrence>, vecSum: nat): nat
  {
    GreedyFrom(span, vecSum / 2, 0)
  }

  /** The cut after the clamp into `[1, size - 1]`: both halves are non-empty. */
  function Clamp(i: nat, size: nat): (j: nat)
    requires size >= 2
    ensures 1 <= j <= size - 1
    ensures 1 <= i <= size - 1 ==> j == i
  {
    var j := if i == 0 then 1 else i;
    if j >= size then size - 1 else j
  }

  /** The sums handed to the two halves: computed from the greedy cut, before the clamp. */
  function HalfSums(span: seq<Occurrence>, vecSum: nat): (sums: (nat, nat))
  {
    var leftSum := PrefixSum(span, Greedy(span, vecSum));
    (leftSum, vecSum - leftSum)
  }

  /** `[b] + p` for every path `p`. */
  function Prefixed(b: bool, paths: seq<seq<bool>>): (r: seq<seq<bool>>)
    ensures |r| == |paths|
    ensures forall k :: 0 <= k < |r| ==> r[k] == [b] + paths[k]
  {
    seq(|paths|, k requires 0 <= k < |paths| => [b] + paths[k])
  }

  /**
   * The bits each row of `span` receives from this call and the calls below
   * it, in the order they are appended (root to leaf).
   */
  function Paths(span: seq<Occurrence>, vecSum: nat): (paths: seq<seq<bool>>)
    requires |span| >= 1
    ensures |paths| == |span|
    decreases |span|
  {
    if |span| == 1 then [[]]
    else
      var i := Clamp(Greedy(span, vecSum), |span|);
      var (leftSum, rightSum) := HalfSums(span, vecSum);
      Prefixed(false, Paths(span[..i], leftSum)) + Prefixed(true, Paths(span[i..], rightSum))
  }

  /**
   * The bits the entry point appends: with at most one row, that row gets the
   * single bit `false`; otherwise the whole table is split with its total.
   */
  function TopPaths(occ: seq<Occurrence>, occurSum: nat): (paths: seq<seq<bool>>)
    ensures |paths| == |occ|
  {
    if |occ| == 0 then [] else if |occ| == 1 then [[false]] else Paths(occ, occurSum)
  }

  // ---------------------------------------------------------------------------
  // Appending bits to the code table

  /** `codes[s]` as `operator[]` sees it: an absent symbol has the empty code. */
  function Get(codes: map<byte, seq<bool>>, s: byte): seq<bool>
  {
    if s in codes then codes[s] else []
  }

  /** The code table after appending `suffixes[k]` to the code of row `k`, row by row. */
  function Extend(codes: map<byte, seq<bool>>, span: seq<Occurrence>, suffixes: seq<seq<bool>>): map<byte, seq<bool>>
    requires |suffixes| == |span|
    decreases |span|
  {
    if span == [] then codes
    else
      var n := |span| - 1;
      var c := Extend(codes, span[..n], suffixes[..n]);
      if suffixes[n] == [] then c else c[span[n].symbol := Get(c, span[n].symbol) + suffixes[n]]
  }

  /** The same one-bit suffix for `n` rows. */
  function Constant(n: nat, bits: seq<bool>): (r: seq<seq<bool>>)
    ensures |r| == n && forall k :: 0 <= k < n ==> r[k] == bits
  {
    seq(n, _ => bits)
  }

  /** The code table the entry point builds from an empty one. */
  function CodeTable(occ: seq<Occurrence>, occurSum: nat): map<byte, seq<bool>>
  {
    Extend(map[], occ, TopPaths(occ, occurSum))
  }

  /** No code is a prefix of another symbol's code. */
  ghost predicate PrefixFree(codes: map<byte, seq<bool>>)
  {
    forall s, t :: s in codes && t in codes && s != t ==> !(codes[s] <= codes[t])
  }

  // ---------------------------------------------------------------------------
  // The split

  /**
   * In every call on a span of two or more rows, the greedy prefix sum stays
   * within half of the sum handed down, taking one more row would exceed it,
   * and the clamped cut leaves two non-empty, strictly smaller halves.
   */
  lemma SplitFacts(span: seq<Occurrence>, vecSum: nat)
    requires |span| >= 2
    ensures var g := Greedy(span, vecSum);
      && g <= |span|
      && PrefixSum(span, g) <= vecSum / 2
      && (g < |span| ==> PrefixSum(span, g + 1) > vecSum / 2)
      && 1 <= Clamp(g, |span|) <= |span| - 1
      && HalfSums(span, vecSum).0 + HalfSums(span, vecSum).1 == vecSum
  {
  }

  // ---------------------------------------------------------------------------
  // Properties of the paths

  lemma {:induction false} PathsLengths(span: seq<Occurrence>, vecSum: nat)
    requires |span| >= 2
    ensures forall k :: 0 <= k < |span| ==> 1 <= |Paths(span, vecSum)[k]| <= |span| - 1
    decreases |span|
  {
    var i := Clamp(Greedy(span, vecSum), |span|);
    var (leftSum, rightSum) := HalfSums(span, vecSum);
    var left, right := Paths(span[..i], leftSum), Paths(span[i..], rightSum);
    if i >= 2 {
      PathsLengths(span[..i], leftSum);
    }
    if |span| - i >= 2 {
      PathsLengths(span[i..], rightSum);
    }
    forall k | 0 <= k < |span| ensures 1 <= |Paths(span, vecSum)[k]| <= |span| - 1 {
      if k < i {
        assert Paths(span, vecSum)[k] == [false] + left[k];
      } else {
        assert Paths(span, vecSum)[k] == [true] + right[k - i];
      }
    }
  }

  lemma PrefixTail(b: bool, p: seq<bool>, q: seq<bool>)
    requires [b] + p <= [b] + q
    ensures p <= q
  {
    assert p == ([b] + p)[1..];
    assert q[..|p|] == ([b] + q)[1..|p| + 1];
  }

  /** Distinct rows get paths of which neither is a prefix of the other. */
  lemma {:induction false} PathsPrefixFree(span: seq<Occurrence>, vecSum: nat)
    requires |span| >= 1
    ensures forall j, k :: 0 <= j < |span| && 0 <= k < |span| && j != k ==>
      !(Paths(span, vecSum)[j] <= Paths(span, vecSum)[k])
    decreases |span|
  {
    if |span| >= 2 {
      var i := Clamp(Greedy(span, vecSum), |span|);
      var (leftSum, rightSum) := HalfSums(span, vecSum);
      var left, right := Paths(span[..i], leftSum), Paths(span[i..], rightSum);
      var paths := Paths(span, vecSum);
      PathsPrefixFree(span[..i], leftSum);
      PathsPrefixFree(span[i..], rightSum);
      forall j, k | 0 <= j < |span| && 0 <= k < |span| && j != k ensures !(paths[j] <= paths[k]) {
        if paths[j] <= paths[k] {
          assert paths[j][0] == paths[k][0];
          if j < i {
            assert paths[j] == [false] + left[j];
            assert paths[k] == [false] + left[k];
            PrefixTail(false, left[j], left[k]);
          } else {
            assert paths[j] == [true] + right[j - i];
            assert paths[k] == [true] + right[k - i];
            PrefixTail(true, right[j - i], right[k - i]);
          }
        }
      }
    }
  }

  // ---------------------------------------------------------------------------
  // Properties of Extend

  lemma DistinctSlice(span: seq<Occurrence>, a: nat, b: nat)
    requires DistinctSymbols(span) && a <= b <= |span|
    ensures DistinctSymbols(span[a..b])
  {
    var t := span[a..b];
    forall i, j | 0 <= i < j < |t| ensures t[i].symbol != t[j].symbol {
      assert t[i] == span[a + i] && t[j] == span[a + j];
    }
  }

  lemma SymbolsSlice(span: seq<Occurrence>, a: nat, b: nat)
    requires a <= b <= |span|
    ensures Symbols(span[a..b]) <= Symbols(span)
  {
    forall s | s in Symbols(span[a..b]) ensures s in Symbols(span) {
      var k :| 0 <= k < b - a && span[a..b][k].symbol == s;
      assert span[a + k].symbol == s;
    }
  }

  /**
   * Row `k`'s symbol ends up with its old code followed by `suffixes[k]`, and
   * is present when it was or when the suffix is non-empty.
   */
  lemma {:induction false} ExtendRow(codes: map<byte, seq<bool>>, span: seq<Occurrence>, suffixes: seq<seq<bool>>, k: nat)
    requires DistinctSymbols(span) && |suffixes| == |span| && k < |span|
    ensures Get(Extend(codes, span, suffixes), span[k].symbol) == Get(codes, span[k].symbol) + suffixes[k]
    ensures span[k].symbol in Extend(codes, span, suffixes) <==> span[k].symbol in codes || suffixes[k] != []
    decreases |span|
  {
    var n := |span| - 1;
    var s := span[k].symbol;
    if k < n {
      DistinctSlice(span, 0, n);
      assert span[..n][k] == span[k];
      ExtendRow(codes, span[..n], suffixes[..n], k);
      assert s != span[n].symbol;
    } else {
      assert s !in Symbols(span[..n]);
      ExtendOther(codes, span[..n], suffixes[..n], s);
    }
  }

  /** A symbol without a row keeps its code and its presence. */
  lemma {:induction false} ExtendOther(codes: map<byte, seq<bool>>, span: seq<Occurrence>, suffixes: seq<seq<bool>>, s: byte)
    requires |suffixes| == |span| && s !in Symbols(span)
    ensures Get(Extend(codes, span, suffixes), s) == Get(codes, s)
    ensures s in Extend(codes, span, suffixes) <==> s in codes
    decreases |span|
  {
    if span != [] {
      var n := |span| - 1;
      SymbolsSlice(span, 0, n);
      ExtendOther(codes, span[..n], suffixes[..n], s);
      assert span[n].symbol in Symbols(span);
    }
  }

  /** Two maps with the same keys and the same `Get` are equal. */
  lemma MapEq(a: map<byte, seq<bool>>, b: map<byte, seq<bool>>)
    requires forall s :: (s in a <==> s in b) && Get(a, s) == Get(b, s)
    ensures a == b
  {
    forall s | s in a ensures a[s] == b[s] {
      assert Get(a, s) == Get(b, s);
    }
  }

  lemma SymbolsSplit(span: seq<Occurrence>, i: nat, s: byte)
    requires i <= |span| && s in Symbols(span)
    ensures s in Symbols(span[..i]) || s in Symbols(span[i..])
  {
    var k :| 0 <= k < |span| && span[k].symbol == s;
    if k < i {
      assert span[..i][k].symbol == s;
    } else {
      assert span[i..][k - i].symbol == s;
    }
  }

  lemma DisjointHalves(span: seq<Occurrence>, i: nat, s: byte)
    requires DistinctSymbols(span) && i <= |span|
    ensures !(s in Symbols(span[..i]) && s in Symbols(span[i..]))
  {
    if s in Symbols(span[..i]) {
      var j :| 0 <= j < i && span[..i][j].symbol == s;
      forall k | 0 <= k < |span| - i ensures span[i..][k].symbol != s {
        assert span[i..][k] == span[i + k];
      }
    }
  }

  /**
   * The four passes of one level of the recursion: `false` appended to the
   * left half, `true` to the right half, then the left half's paths and the
   * right half's paths.
   */
  function FourPasses(codes: map<byte, seq<bool>>, span: seq<Occurrence>, i: nat,
                      left: seq<seq<bool>>, right: seq<seq<bool>>): map<byte, seq<bool>>
    requires 0 < i < |span| && |left| == i && |right| == |span| - i
  {
    var c1 := Extend(codes, span[..i], Constant(i, [false]));
    var c2 := Extend(c1, span[i..], Constant(|span| - i, [true]));
    var c3 := Extend(c2, span[..i], left);
    Extend(c3, span[i..], right)
  }

  /** A pass over `a` then a pass over `b` append to a row of `a` not in `b` its suffix from the first pass. */
  lemma RowThenOther(codes: map<byte, seq<bool>>, a: seq<Occurrence>, sa: seq<seq<bool>>,
                     b: seq<Occurrence>, sb: seq<seq<bool>>, k: nat)
    requires DistinctSymbols(a) && |sa| == |a| && |sb| == |b| && k < |a| && sa[k] != []
    requires a[k].symbol !in Symbols(b)
    ensures var c := Extend(Extend(codes, a, sa), b, sb);
      a[k].symbol in c && Get(c, a[k].symbol) == Get(codes, a[k].symbol) + sa[k]
  {
    ExtendRow(codes, a, sa, k);
    ExtendOther(Extend(codes, a, sa), b, sb, a[k].symbol);
  }

  /** A pass over `a` then a pass over `b` append to a row of `b` not in `a` its suffix from the second pass. */
  lemma OtherThenRow(codes: map<byte, seq<bool>>, a: seq<Occurrence>, sa: seq<seq<bool>>,
                     b: seq<Occurrence>, sb: seq<seq<bool>>, k: nat)
    requires DistinctSymbols(b) && |sa| == |a| && |sb| == |b| && k < |b| && sb[k] != []
    requires b[k].symbol !in Symbols(a)
    ensures var c := Extend(Extend(codes, a, sa), b, sb);
      b[k].symbol in c && Get(c, b[k].symbol) == Get(codes, b[k].symbol) + sb[k]
  {
    ExtendOther(codes, a, sa, b[k].symbol);
    ExtendRow(Extend(codes, a, sa), b, sb, k);
  }

  /** The halves of a span with distinct symbols have distinct symbols and share none. */
  lemma Halves(span: seq<Occurrence>, i: nat, s: byte)
    requires DistinctSymbols(span) && i <= |span|
    ensures DistinctSymbols(span[..i]) && DistinctSymbols(span[i..])
    ensures !(s in Symbols(span[..i]) && s in Symbols(span[i..]))
  {
    DistinctSlice(span, 0, i);
    DistinctSlice(span, i, |span|);
    DisjointHalves(span, i, s);
  }

  /** The four passes append to a row of the left half `false`, then its path within that half. */
  lemma PassesLeftRow(codes: map<byte, seq<bool>>, span: seq<Occurrence>, i: nat,
                      left: seq<seq<bool>>, right: seq<seq<bool>>, k: nat)
    requires DistinctSymbols(span) && 0 < i < |span|
    requires |left| == i && |right| == |span| - i && k < i
    ensures var c4, s := FourPasses(codes, span, i, left, right), span[k].symbol;
      s in c4 && Get(c4, s) == Get(codes, s) + ([false] + left[k])
  {
    var l, r := span[..i], span[i..];
    var s := span[k].symbol;
    Halves(span, i, s);
    assert l[k].symbol == s && s in Symbols(l);
    var c2 := Extend(Extend(codes, l, Constant(i, [false])), r, Constant(|span| - i, [true]));
    RowThenOther(codes, l, Constant(i, [false]), r, Constant(|span| - i, [true]), k);
    if left[k] == [] {
      ExtendRow(c2, l, left, k);
      ExtendOther(Extend(c2, l, left), r, right, s);
    } else {
      RowThenOther(c2, l, left, r, right, k);
    }
  }

  /** The four passes append to a row of the right half `true`, then its path within that half. */
  lemma PassesRightRow(codes: map<byte, seq<bool>>, span: seq<Occurrence>, i: nat,
                       left: seq<seq<bool>>, right: seq<seq<bool>>, k: nat)
    requires DistinctSymbols(span) && 0 < i < |span|
    requires |left| == i && |right| == |span| - i && k < |span| - i
    ensures var c4, s := FourPasses(codes, span, i, left, right), span[i + k].symbol;
      s in c4 && Get(c4, s) == Get(codes, s) + ([true] + right[k])
  {
    var l, r := span[..i], span[i..];
    var s := span[i + k].symbol;
    Halves(span, i, s);
    assert r[k].symbol == s && s in Symbols(r);
    var c2 := Extend(Extend(codes, l, Constant(i, [false])), r, Constant(|span| - i, [true]));
    OtherThenRow(codes, l, Constant(i, [false]), r, Constant(|span| - i, [true]), k);
    if right[k] == [] {
      ExtendOther(c2, l, left, s);
      ExtendRow(Extend(c2, l, left), r, right, k);
    } else {
      OtherThenRow(c2, l, left, r, right, k);
    }
  }

  lemma SplitLeftRow(codes: map<byte, seq<bool>>, span: seq<Occurrence>, i: nat,
                     left: seq<seq<bool>>, right: seq<seq<bool>>, k: nat)
    requires DistinctSymbols(span) && 0 < i < |span|
    requires |left| == i && |right| == |span| - i && k < i
    ensures var c4, e := FourPasses(codes, span, i, left, right),
                         Extend(codes, span, Prefixed(false, left) + Prefixed(true, right));
      span[k].symbol in c4 && span[k].symbol in e && Get(c4, span[k].symbol) == Get(e, span[k].symbol)
  {
    var paths := Prefixed(false, left) + Prefixed(true, right);
    PassesLeftRow(codes, span, i, left, right, k);
    assert paths[k] == [false] + left[k];
    ExtendRow(codes, span, paths, k);
  }

  lemma SplitRightRow(codes: map<byte, seq<bool>>, span: seq<Occurrence>, i: nat,
                      left: seq<seq<bool>>, right: seq<seq<bool>>, k: nat)
    requires DistinctSymbols(span) && 0 < i < |span|
    requires |left| == i && |right| == |span| - i && k < |span| - i
    ensures var c4, e := FourPasses(codes, span, i, left, right),
                         Extend(codes, span, Prefixed(false, left) + Prefixed(true, right));
      span[i + k].symbol in c4 && span[i + k].symbol in e && Get(c4, span[i + k].symbol) == Get(e, span[i + k].symbol)
  {
    var paths := Prefixed(false, left) + Prefixed(true, right);
    PassesRightRow(codes, span, i, left, right, k);
    assert paths[i + k] == [true] + right[k];
    ExtendRow(codes, span, paths, i + k);
  }

  lemma SplitOther(codes: map<byte, seq<bool>>, span: seq<Occurrence>, i: nat,
                   left: seq<seq<bool>>, right: seq<seq<bool>>, s: byte)
    requires DistinctSymbols(span) && 0 < i < |span|
    requires |left| == i && |right| == |span| - i && s !in Symbols(span)
    ensures var c4, e := FourPasses(codes, span, i, left, right),
                         Extend(codes, span, Prefixed(false, left) + Prefixed(true, right));
      (s in c4 <==> s in e) && Get(c4, s) == Get(e, s)
  {
    var l, r := span[..i], span[i..];
    DistinctSlice(span, 0, i);
    DistinctSlice(span, i, |span|);
    SymbolsSlice(span, 0, i);
    SymbolsSlice(span, i, |span|);
    var c1 := Extend(codes, l, Constant(i, [false]));
    var c2 := Extend(c1, r, Constant(|span| - i, [true]));
    var c3 := Extend(c2, l, left);
    ExtendOther(codes, l, Constant(i, [false]), s);
    ExtendOther(c1, r, Constant(|span| - i, [true]), s);
    ExtendOther(c2, l, left, s);
    ExtendOther(c3, r, right, s);
    ExtendOther(codes, span, Prefixed(false, left) + Prefixed(true, right), s);
  }

  /**
   * One level of the recursion: the four passes append to each row its whole
   * path, `false` or `true` followed by the path within its half.
   */
  lemma ExtendSplit(codes: map<byte, seq<bool>>, span: seq<Occurrence>, i: nat,
                    left: seq<seq<bool>>, right: seq<seq<bool>>)
    requires DistinctSymbols(span) && 0 < i < |span|
    requires |left| == i && |right| == |span| - i
    ensures FourPasses(codes, span, i, left, right) == Extend(codes, span, Prefixed(false, left) + Prefixed(true, right))
  {
    var c4 := FourPasses(codes, span, i, left, right);
    var e := Extend(codes, span, Prefixed(false, left) + Prefixed(true, right));
    forall s ensures (s in c4 <==> s in e) && Get(c4, s) == Get(e, s) {
      if s in Symbols(span) {
        var k :| 0 <= k < |span| && span[k].symbol == s;
        if k < i {
          SplitLeftRow(codes, span, i, left, right, k);
        } else {
          SplitRightRow(codes, span, i, left, right, k - i);
        }
      } else {
        SplitOther(codes, span, i, left, right, s);
      }
    }
    MapEq(c4, e);
  }

  /** A call on a single row appends nothing. */
  lemma SingleRow(codes: map<byte, seq<bool>>, span: seq<Occurrence>, vecSum: nat)
    requires |span| == 1
    ensures Extend(codes, span, Paths(span, vecSum)) == codes
  {
    assert Paths(span, vecSum) == [[]];
    assert Extend(codes, span, [[]]) == Extend(codes, [], []);
  }

  /**
   * The four passes of one call on a span of two or more rows, with the cut
   * and the sums the call computes, append to each row its path.
   */
  lemma SplitPasses(codes: map<byte, seq<bool>>, span: seq<Occurrence>, vecSum: nat,
                    c1: map<byte, seq<bool>>, c2: map<byte, seq<bool>>,
                    c3: map<byte, seq<bool>>, c4: map<byte, seq<bool>>)
    requires |span| >= 2 && DistinctSymbols(span)
    requires var i := Clamp(Greedy(span, vecSum), |span|);
      && c1 == Extend(codes, span[..i], Constant(i, [false]))
      && c2 == Extend(c1, span[i..], Constant(|span| - i, [true]))
      && c3 == Extend(c2, span[..i], Paths(span[..i], HalfSums(span, vecSum).0))
      && c4 == Extend(c3, span[i..], Paths(span[i..], HalfSums(span, vecSum).1))
    ensures c4 == Extend(codes, span, Paths(span, vecSum))
  {
    var i := Clamp(Greedy(span, vecSum), |span|);
    var left, right := Paths(span[..i], HalfSums(span, vecSum).0), Paths(span[i..], HalfSums(span, vecSum).1);
    assert c4 == FourPasses(codes, span, i, left, right);
    ExtendSplit(codes, span, i, left, right);
  }

  // ---------------------------------------------------------------------------
  // The finished code table

  /**
   * Starting from an empty table, exactly the symbols of the rows get a code;
   * row `k`'s code is its path; every code has at least one bit and at most
   * `max(1, |occ| - 1)`; a single row gets `[false]` and no rows give no codes.
   */
  lemma CodeTableShape(occ: seq<Occurrence>, occurSum: nat)
    requires DistinctSymbols(occ)
    ensures CodeTable(occ, occurSum).Keys == Symbols(occ)
    ensures forall k :: 0 <= k < |occ| ==> CodeTable(occ, occurSum)[occ[k].symbol] == TopPaths(occ, occurSum)[k]
    ensures forall s :: s in CodeTable(occ, occurSum) ==>
      1 <= |CodeTable(occ, occurSum)[s]| <= (if |occ| <= 1 then 1 else |occ| - 1)
    ensures |occ| == 0 ==> CodeTable(occ, occurSum) == map[]
    ensures |occ| == 1 ==> CodeTable(occ, occurSum) == map[occ[0].symbol := [false]]
  {
    var table := CodeTable(occ, occurSum);
    var paths := TopPaths(occ, occurSum);
    if |occ| >= 2 {
      PathsLengths(occ, occurSum);
    }
    assert forall k :: 0 <= k < |occ| ==> paths[k] != [];
    forall k | 0 <= k < |occ| ensures occ[k].symbol in table && table[occ[k].symbol] == paths[k] {
      ExtendRow(map[], occ, paths, k);
    }
    forall s | s in table ensures s in Symbols(occ) {
      if s !in Symbols(occ) {
        ExtendOther(map[], occ, paths, s);
      }
    }
    forall s | s in Symbols(occ) ensures s in table && 1 <= |table[s]| <= (if |occ| <= 1 then 1 else |occ| - 1) {
      var k :| 0 <= k < |occ| && occ[k].symbol == s;
      ExtendRow(map[], occ, paths, k);
    }
    if |occ| == 1 {
      MapEq(table, map[occ[0].symbol := [false]]);
    }
  }

  /** The codes built from an empty table form a prefix code. */
  lemma CodeTablePrefixFree(occ: seq<Occurrence>, occurSum: nat)
    requires DistinctSymbols(occ)
    ensures PrefixFree(CodeTable(occ, occurSum))
  {
    var table := CodeTable(occ, occurSum);
    CodeTableShape(occ, occurSum);
    if |occ| >= 2 {
      PathsPrefixFree(occ, occurSum);
      forall s, t | s in table && t in table && s != t ensures !(table[s] <= table[t]) {
        var j :| 0 <= j < |occ| && occ[j].symbol == s;
        var k :| 0 <= k < |occ| && occ[k].symbol == t;
        assert table[s] == Paths(occ, occurSum)[j];
      }
    }
  }
}
