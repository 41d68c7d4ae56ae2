/**
 * Choosing the next GPT-2 token from one row of logits: greedily (`argmax`,
 * the first maximum) or by top-k sampling (a stable descending sort, `take(k)`,
 * a softmax, and a draw through the cumulative weights in `randomIndex`).
 *
 * Logits and weights are real numbers: `Float` rounding and NaN are not
 * modelled. The softmax is a parameter, and so is the uniform draw `u` that
 * `Random.nextFloat()` returns.
 */
module Sampling {
  import opened Wrappers
  import opened Text

  // ----- argmax -----

  /** The index `argmax` holds after looking at the first `n` entries. */
  function ArgmaxOf(a: seq<real>, n: int): (b: int)
    requires 0 <= n <= |a|
    ensures 0 <= b && (n > 0 ==> b < n) && (n == 0 ==> b == 0)
    decreases n
  {
    if n == 0 then 0
    else
      var b := ArgmaxOf(a, n - 1);
      if a[n - 1] > a[b] then n - 1 else b
  }

  /** After `n > 0` entries the index holds the first of their maxima. */
  lemma {:induction false} ArgmaxOfFirstMax(a: seq<real>, n: int)
    requires 1 <= n <= |a|
    ensures forall j | 0 <= j < n :: a[j] <= a[ArgmaxOf(a, n)]
    ensures forall j | 0 <= j < ArgmaxOf(a, n) :: a[j] < a[ArgmaxOf(a, n)]
    decreases n
  {
    if n > 1 {
      ArgmaxOfFirstMax(a, n - 1);
    }
  }

  /**
   * `FloatArray.argmax()`: the first index of a maximal value, found by keeping
   * the best index and replacing it only on a strictly greater value; 0 for an
   * empty array.
   */
  method Argmax(a: seq<real>) returns (bestIndex: int)
    ensures bestIndex == ArgmaxOf(a, |a|)
    ensures |a| == 0 ==> bestIndex == 0
    ensures |a| > 0 ==>
      && 0 <= bestIndex < |a|
      && (forall j | 0 <= j < |a| :: a[j] <= a[bestIndex])
      && (forall j | 0 <= j < bestIndex :: a[j] < a[bestIndex])
  {
    bestIndex := 0;
    var it := 0;
    while it < |a|
      invariant 0 <= it <= |a|
      invariant bestIndex == ArgmaxOf(a, it)
    {
      if a[it] > a[bestIndex] {
        bestIndex := it;
      }
      it := it + 1;
    }
    if |a| > 0 {
      ArgmaxOfFirstMax(a, |a|);
    }
  }

  // ----- randomIndex and sample -----

  /** The sum of the first `n` weights. */
  function PrefixSum(s: seq<real>, n: int): real
    requires 0 <= n <= |s|
    decreases n
  {
    if n == 0 then 0.0 else PrefixSum(s, n - 1) + s[n - 1]
  }

  /** The running total up to and including index `j`. */
  function Through(s: seq<real>, j: int): real
    requires 0 <= j < |s|
  {
    PrefixSum(s, j + 1)
  }

  /** `probs.sum()`. */
  function Sum(s: seq<real>): real
  {
    PrefixSum(s, |s|)
  }

  /** The index `randomIndex` returns for the draw `rnd` when it starts looking at index `i`. */
  function PickFrom(probs: seq<real>, rnd: real, i: int): int
    requires 0 <= i <= |probs|
    decreases |probs| - i
  {
    if i == |probs| then |probs| - 1
    else if rnd < PrefixSum(probs, i + 1) then i
    else PickFrom(probs, rnd, i + 1)
  }

  function PickIndex(probs: seq<real>, rnd: real): int
  {
    PickFrom(probs, rnd, 0)
  }

  /**
   * `randomIndex`: the first index whose running weight total exceeds
   * `probs.sum() * u`, and the last index if there is none (-1 for no weights).
   */
  method RandomIndex(probs: seq<real>, u: real) returns (i: int)
    ensures i == PickIndex(probs, Sum(probs) * u)
  {
    var rnd := Sum(probs) * u;
    var acc := 0.0;
    var k := 0;
    while k < |probs|
      invariant 0 <= k <= |probs|
      invariant acc == PrefixSum(probs, k)
      invariant PickFrom(probs, rnd, k) == PickIndex(probs, rnd)
    {
      acc := acc + probs[k];
      if rnd < acc {
        return k;
      }
      k := k + 1;
    }
    return |probs| - 1;
  }

  /**
   * What `randomIndex` returns: the least index whose running total exceeds the
   * draw, or the last index when no running total does; -1 only without weights.
   */
  lemma {:induction false} PickFromSpec(probs: seq<real>, rnd: real, i: int)
    requires 0 <= i <= |probs|
    requires forall j | 0 <= j < i :: Through(probs, j) <= rnd
    ensures var p := PickFrom(probs, rnd, i);
      && -1 <= p < |probs| && (p == -1 <==> probs == [])
      && (forall j | 0 <= j < p :: Through(probs, j) <= rnd)
      && (0 <= p ==> rnd < PrefixSum(probs, p + 1) || (p == |probs| - 1 && Sum(probs) <= rnd))
    decreases |probs| - i
  {
    if i < |probs| && !(rnd < PrefixSum(probs, i + 1)) {
      PickFromSpec(probs, rnd, i + 1);
    }
  }

  lemma PickIndexSpec(probs: seq<real>, rnd: real)
    ensures var p := PickIndex(probs, rnd);
      && -1 <= p < |probs| && (p == -1 <==> probs == [])
      && (forall j | 0 <= j < p :: Through(probs, j) <= rnd)
      && (0 <= p ==> rnd < PrefixSum(probs, p + 1) || (p == |probs| - 1 && Sum(probs) <= rnd))
  {
    PickFromSpec(probs, rnd, 0);
  }

  /** Running totals of non-negative weights never decrease. */
  lemma {:induction false} PrefixSumMonotone(s: seq<real>, m: int, n: int)
    requires 0 <= m <= n <= |s|
    requires forall j | 0 <= j < |s| :: s[j] >= 0.0
    ensures PrefixSum(s, m) <= PrefixSum(s, n)
    decreases n - m
  {
    if m < n {
      PrefixSumMonotone(s, m, n - 1);
    }
  }

  /**
   * With non-negative weights of positive total and a draw `u` in [0, 1), the
   * index is a real hit: its weight is positive and the scaled draw falls in
   * its slice of the running total.
   */
  lemma PickIndexHit(probs: seq<real>, u: real)
    requires forall j | 0 <= j < |probs| :: probs[j] >= 0.0
    requires Sum(probs) > 0.0 && 0.0 <= u < 1.0
    ensures var p := PickIndex(probs, Sum(probs) * u);
      && 0 <= p < |probs| && probs[p] > 0.0
      && PrefixSum(probs, p) <= Sum(probs) * u < PrefixSum(probs, p + 1)
  {
    var rnd := Sum(probs) * u;
    var p := PickIndex(probs, rnd);
    PickIndexSpec(probs, rnd);
    ScaledDraw(Sum(probs), u);
    if p > 0 {
      assert Through(probs, p - 1) <= rnd;
    }
  }

  lemma ScaledDraw(total: real, u: real)
    requires total > 0.0 && 0.0 <= u < 1.0
    ensures 0.0 <= total * u < total
  {
    assert total - total * u == total * (1.0 - u);
  }

  /** With all weights zero, the draw is never below a running total and the last index comes back. */
  lemma PickIndexAllZero(probs: seq<real>, u: real)
    requires probs != []
    requires forall j | 0 <= j < |probs| :: probs[j] == 0.0
    ensures PickIndex(probs, Sum(probs) * u) == |probs| - 1
  {
    var rnd := Sum(probs) * u;
    ZeroPrefixSums(probs, |probs|);
    assert rnd == 0.0;
    PickIndexSpec(probs, rnd);
  }

  lemma {:induction false} ZeroPrefixSums(probs: seq<real>, n: int)
    requires 0 <= n <= |probs|
    requires forall j | 0 <= j < |probs| :: probs[j] == 0.0
    ensures forall m | 0 <= m <= n :: PrefixSum(probs, m) == 0.0
    decreases n
  {
    if n > 0 {
      ZeroPrefixSums(probs, n - 1);
    }
  }

  /** `indexes[randomIndex(probs)]`, which throws when the position is outside `indexes`. */
  function SampledToken(indexes: seq<int>, probs: seq<real>, u: real): (r: Result<int>)
    ensures probs == [] ==> r == Err(IndexOutOfBounds)
    ensures |indexes| == |probs| > 0 ==> r.Ok? && r.value in indexes
  {
    PickIndexSpec(probs, Sum(probs) * u);
    var i := PickIndex(probs, Sum(probs) * u);
    if 0 <= i < |indexes| then Ok(indexes[i]) else Err(IndexOutOfBounds)
  }

  lemma SampledAt(indexes: seq<int>, probs: seq<real>, u: real)
    requires 0 <= PickIndex(probs, Sum(probs) * u) < |indexes|
    ensures SampledToken(indexes, probs, u) == Ok(indexes[PickIndex(probs, Sum(probs) * u)])
  {
  }

  /** `sample`: draw a position with `randomIndex` and map it through `indexes`. */
  method Sample(indexes: seq<int>, probs: seq<real>, u: real) returns (r: Result<int>)
    ensures r == SampledToken(indexes, probs, u)
  {
    var i := RandomIndex(probs, u);
    if 0 <= i < |indexes| {
      r := Ok(indexes[i]);
    } else {
      r := Err(IndexOutOfBounds);
    }
  }

  // ----- top-k selection -----

  /** An (index, logit) pair, as `mapIndexed { index, fl -> index to fl }` builds them. */
  type Scored = (int, real)

  /** The pairs of a logits row, in index order. */
  function Indexed(logits: seq<real>): (s: seq<Scored>)
    ensures |s| == |logits|
    ensures forall i | 0 <= i < |s| :: s[i] == (i, logits[i])
  {
    seq(|logits|, i requires 0 <= i < |logits| => (i, logits[i]))
  }

  /** `a` comes before `b` in a stable descending sort of pairs listed in index order. */
  predicate Before(a: Scored, b: Scored)
  {
    a.1 > b.1 || (a.1 == b.1 && a.0 < b.0)
  }

  predicate SortedDesc(s: seq<Scored>)
  {
    forall i, j | 0 <= i < j < |s| :: Before(s[i], s[j])
  }

  /** Insert a later pair after every pair whose logit is at least its own. */
  function Insert(s: seq<Scored>, x: Scored): (r: seq<Scored>)
    ensures |r| == |s| + 1
    ensures multiset(r) == multiset(s) + multiset{x}
    decreases |s|
  {
    if s == [] then [x]
    else if s[0].1 >= x.1 then
      assert s == [s[0]] + s[1..];
      [s[0]] + Insert(s[1..], x)
    else [x] + s
  }

  /** `sortedByDescending { it.second }`: a stable sort, here by insertion in list order. */
  function SortDesc(s: seq<Scored>): (r: seq<Scored>)
    ensures |r| == |s|
    ensures multiset(r) == multiset(s)
    decreases |s|
  {
    if s == [] then []
    else
      assert s == s[..|s| - 1] + [Last(s)];
      Insert(SortDesc(s[..|s| - 1]), Last(s))
  }

  /** Every pair of an insertion is the inserted pair or a pair of the list. */
  lemma InsertMembers(s: seq<Scored>, x: Scored)
    ensures forall y | y in Insert(s, x) :: y == x || y in s
  {
    forall y | y in Insert(s, x) ensures y == x || y in s {
      assert y in multiset(Insert(s, x));
    }
  }

  /** A sorted list stays sorted under a head that comes before all its pairs. */
  lemma SortedCons(h: Scored, t: seq<Scored>)
    requires SortedDesc(t)
    requires forall y | y in t :: Before(h, y)
    ensures SortedDesc([h] + t)
  {
    var r := [h] + t;
    forall i, j | 0 <= i < j < |r| ensures Before(r[i], r[j]) {
      assert r[j] == t[j - 1];
      if i > 0 {
        assert r[i] == t[i - 1];
      }
    }
  }

  /** Inserting a pair whose index is above all others keeps the list sorted. */
  lemma {:induction false} InsertSorted(s: seq<Scored>, x: Scored)
    requires SortedDesc(s)
    requires forall y | y in s :: y.0 < x.0
    ensures SortedDesc(Insert(s, x))
    decreases |s|
  {
    if s != [] {
      var rest := s[1..];
      if s[0].1 >= x.1 {
        assert SortedDesc(rest) by {
          forall i, j | 0 <= i < j < |rest| ensures Before(rest[i], rest[j]) {
            assert rest[i] == s[i + 1] && rest[j] == s[j + 1];
          }
        }
        assert forall y | y in rest :: y in s;
        InsertSorted(rest, x);
        InsertMembers(rest, x);
        forall y | y in Insert(rest, x) ensures Before(s[0], y) {
          if y != x {
            var j :| 0 <= j < |rest| && rest[j] == y;
            assert s[j + 1] == y;
          }
        }
        SortedCons(s[0], Insert(rest, x));
      } else {
        forall y | y in s ensures Before(x, y) {
          var j :| 0 <= j < |s| && s[j] == y;
          if j > 0 {
            assert Before(s[0], s[j]);
          }
        }
        SortedCons(x, s);
      }
    }
  }

  /** Pairs listed in strictly increasing index order. */
  predicate AscendingIndices(s: seq<Scored>)
  {
    forall i, j | 0 <= i < j < |s| :: s[i].0 < s[j].0
  }

  lemma {:induction false} SortDescSorted(s: seq<Scored>)
    requires AscendingIndices(s)
    ensures SortedDesc(SortDesc(s))
    decreases |s|
  {
    if s != [] {
      var init := s[..|s| - 1];
      SortDescSorted(init);
      forall y | y in SortDesc(init) ensures y.0 < Last(s).0 {
        assert y in multiset(SortDesc(init));
        var j :| 0 <= j < |init| && init[j] == y;
      }
      InsertSorted(SortDesc(init), Last(s));
    }
  }

  /**
   * The top-k selection: pair every logit with its index, sort descending by
   * logit (stable), and `take(k)`, which throws for a negative `k`.
   */
  function TopKSelection(logits: seq<real>, k: int): Result<seq<Scored>>
  {
    if k < 0 then Err(IllegalArgument)
    else
      var sorted := SortDesc(Indexed(logits));
      Ok(sorted[..if k < |sorted| then k else |sorted|])
  }

  /**
   * The selection holds min(k, n) pairs of the row with distinct indices, in
   * non-increasing logit order with ties in increasing index order, and no
   * logit left out exceeds a selected one.
   */
  lemma TopKSelectionSpec(logits: seq<real>, k: int)
    requires k >= 0
    ensures var sel := TopKSelection(logits, k).value;
      && |sel| == (if k < |logits| then k else |logits|)
      && (forall i | 0 <= i < |sel| :: 0 <= sel[i].0 < |logits| && sel[i].1 == logits[sel[i].0])
      && (forall i, j | 0 <= i < j < |sel| :: Before(sel[i], sel[j]))
      && (forall i, j | 0 <= i < j < |sel| :: sel[i].0 != sel[j].0)
      && (forall j | 0 <= j < |logits| && (forall i | 0 <= i < |sel| :: sel[i].0 != j) ::
            forall i | 0 <= i < |sel| :: logits[j] <= sel[i].1)
  {
    SortDescSorted(Indexed(logits));
    SortedPairs(logits);
    AllPairsSorted(logits);
    PrefixOfSorted(logits, SortDesc(Indexed(logits)), TopKSelection(logits, k).value);
  }

  /** The sorted pairs are pairs of the row ... */
  lemma SortedPairs(logits: seq<real>)
    ensures forall i | 0 <= i < |SortDesc(Indexed(logits))| ::
      0 <= SortDesc(Indexed(logits))[i].0 < |logits| && SortDesc(Indexed(logits))[i].1 == logits[SortDesc(Indexed(logits))[i].0]
  {
    forall i | 0 <= i < |SortDesc(Indexed(logits))| ensures
      0 <= SortDesc(Indexed(logits))[i].0 < |logits| && SortDesc(Indexed(logits))[i].1 == logits[SortDesc(Indexed(logits))[i].0]
    {
      SortedPair(logits, i);
    }
  }

  /** ... and every pair of the row is among them. */
  lemma AllPairsSorted(logits: seq<real>)
    ensures forall j | 0 <= j < |logits| :: (j, logits[j]) in SortDesc(Indexed(logits))
  {
    var pairs := Indexed(logits);
    forall j | 0 <= j < |logits| ensures (j, logits[j]) in SortDesc(pairs) {
      assert pairs[j] in multiset(SortDesc(pairs));
    }
  }

  /** Every sorted pair is a pair of the row. */
  lemma SortedPair(logits: seq<real>, i: int)
    requires 0 <= i < |SortDesc(Indexed(logits))|
    ensures 0 <= SortDesc(Indexed(logits))[i].0 < |logits|
    ensures SortDesc(Indexed(logits))[i].1 == logits[SortDesc(Indexed(logits))[i].0]
  {
    var pairs := Indexed(logits);
    var sorted := SortDesc(pairs);
    assert sorted[i] in multiset(pairs);
    var j :| 0 <= j < |pairs| && pairs[j] == sorted[i];
  }

  /**
   * A prefix of a stable descending sort of all the pairs of a row: its pairs
   * come from the row, in order, with distinct indices, and no pair left out
   * has a larger logit.
   */
  lemma PrefixOfSorted(logits: seq<real>, sorted: seq<Scored>, sel: seq<Scored>)
    requires SortedDesc(sorted)
    requires forall i | 0 <= i < |sorted| :: 0 <= sorted[i].0 < |logits| && sorted[i].1 == logits[sorted[i].0]
    requires forall j | 0 <= j < |logits| :: (j, logits[j]) in sorted
    requires |sel| <= |sorted| && sel == sorted[..|sel|]
    ensures forall i | 0 <= i < |sel| :: 0 <= sel[i].0 < |logits| && sel[i].1 == logits[sel[i].0]
    ensures forall i, j | 0 <= i < j < |sel| :: Before(sel[i], sel[j])
    ensures forall i, j | 0 <= i < j < |sel| :: sel[i].0 != sel[j].0
    ensures forall j | 0 <= j < |logits| && (forall i | 0 <= i < |sel| :: sel[i].0 != j) ::
      forall i | 0 <= i < |sel| :: logits[j] <= sel[i].1
  {
    assert forall i | 0 <= i < |sel| :: sel[i] == sorted[i];
    forall i, j | 0 <= i < j < |sel| ensures Before(sel[i], sel[j]) && sel[i].0 != sel[j].0 {
      assert Before(sorted[i], sorted[j]);
    }
    forall j | 0 <= j < |logits| && (forall i | 0 <= i < |sel| :: sel[i].0 != j)
      ensures forall i | 0 <= i < |sel| :: logits[j] <= sel[i].1
    {
      var p :| 0 <= p < |sorted| && sorted[p] == (j, logits[j]);
      assert p >= |sel|;
      forall i | 0 <= i < |sel| ensures logits[j] <= sel[i].1 {
        assert Before(sorted[i], sorted[p]);
      }
    }
  }

  // ----- choosing the next token -----

  datatype StrategyKind = Greedy | TopK

  /** The generation strategy: greedy, or top-k with `value` as k. */
  datatype Strategy = Strategy(strategy: StrategyKind, value: int)

  function Indexes(sel: seq<Scored>): (r: seq<int>)
    ensures |r| == |sel| && forall i | 0 <= i < |sel| :: r[i] == sel[i].0
  {
    seq(|sel|, i requires 0 <= i < |sel| => sel[i].0)
  }

  function Logits(sel: seq<Scored>): (r: seq<real>)
    ensures |r| == |sel| && forall i | 0 <= i < |sel| :: r[i] == sel[i].1
  {
    seq(|sel|, i requires 0 <= i < |sel| => sel[i].1)
  }

  // ----- softmax -----

  /** `max()`: the largest value, throwing on an empty list. */
  function MaxOf(xs: seq<real>): (r: Result<real>)
    ensures r.Ok? <==> xs != []
    ensures r.Ok? ==> r.value in xs && forall i | 0 <= i < |xs| :: xs[i] <= r.value
    ensures r.Err? ==> r.error == NoSuchElement
    decreases |xs|
  {
    if xs == [] then Err(NoSuchElement)
    else if |xs| == 1 then Ok(xs[0])
    else
      var init := xs[..|xs| - 1];
      var m := MaxOf(init).value;
      assert m in xs;
      Ok(if Last(xs) > m then Last(xs) else m)
  }

  /** Positive weights have a positive total. */
  lemma {:induction false} PositiveSum(e: seq<real>, n: int)
    requires 0 <= n <= |e|
    requires forall i | 0 <= i < |e| :: e[i] > 0.0
    ensures n > 0 ==> PrefixSum(e, n) > 0.0
    ensures PrefixSum(e, n) >= 0.0
    decreases n
  {
    if n > 0 {
      PositiveSum(e, n - 1);
    }
  }

  /**
   * The softmax of lines 125-129 of the client: `exp(l - max)` for every
   * logit `l`, each divided by their sum. The exponential is a parameter; it
   * only has to be positive.
   */
  function Softmax(exp: real -> real, logits: seq<real>): (r: Result<seq<real>>)
    requires forall x :: exp(x) > 0.0
    ensures r.Ok? <==> logits != []
    ensures r.Err? ==> r.error == NoSuchElement
    ensures r.Ok? ==> |r.value| == |logits| && forall i | 0 <= i < |logits| :: r.value[i] > 0.0
  {
    var maxLogitValue :- MaxOf(logits);
    var logitsExp := seq(|logits|, i requires 0 <= i < |logits| => exp(logits[i] - maxLogitValue));
    PositiveSum(logitsExp, |logitsExp|);
    var sumExp := Sum(logitsExp);
    Ok(seq(|logitsExp|, i requires 0 <= i < |logitsExp| => logitsExp[i] / sumExp))
  }

  lemma {:induction false} ScaledPrefixSum(e: seq<real>, d: seq<real>, total: real, n: int)
    requires |d| == |e| && total > 0.0 && 0 <= n <= |e|
    requires forall i | 0 <= i < |e| :: d[i] == e[i] / total
    ensures PrefixSum(d, n) == PrefixSum(e, n) / total
    decreases n
  {
    if n > 0 {
      ScaledPrefixSum(e, d, total, n - 1);
    }
  }

  /** The softmax weights add up to one. */
  lemma SoftmaxSumsToOne(exp: real -> real, logits: seq<real>)
    requires forall x :: exp(x) > 0.0
    requires logits != []
    ensures Sum(Softmax(exp, logits).value) == 1.0
  {
    var maxLogitValue := MaxOf(logits).value;
    var logitsExp := seq(|logits|, i requires 0 <= i < |logits| => exp(logits[i] - maxLogitValue));
    PositiveSum(logitsExp, |logitsExp|);
    var sumExp := Sum(logitsExp);
    var probs := Softmax(exp, logits).value;
    assert probs == seq(|logitsExp|, i requires 0 <= i < |logitsExp| => logitsExp[i] / sumExp);
    ScaledPrefixSum(logitsExp, probs, sumExp, |logits|);
    DivSelf(sumExp);
  }

  lemma DivSelf(x: real)
    requires x > 0.0
    ensures x / x == 1.0
  {
  }

  // ----- choosing the next token -----

  /**
   * The token one generation step picks from a logits row: the first maximum
   * for greedy; for top-k, a draw by the softmax weights among the k best,
   * where `take` throws for a negative k and `max()` for an empty selection.
   */
  function ChosenToken(strategy: Strategy, logits: seq<real>, exp: real -> real, u: real): Result<int>
    requires forall x :: exp(x) > 0.0
  {
    match strategy.strategy
    case TopK =>
      if strategy.value < 0 then Err(IllegalArgument)
      else
        SampleSelected(TopKSelection(logits, strategy.value).value, exp, u)
    case Greedy => Ok(ArgmaxOf(logits, |logits|))
  }

  /** Lines 125-132 of the client: the softmax of the selected logits, then `sample` among their indices. */
  function SampleSelected(sel: seq<Scored>, exp: real -> real, u: real): Result<int>
    requires forall x :: exp(x) > 0.0
  {
    var probs :- Softmax(exp, Logits(sel));
    SampledToken(Indexes(sel), probs, u)
  }

  /** The `when (strategy.strategy)` of one generation step. */
  method NextToken(strategy: Strategy, logits: seq<real>, exp: real -> real, u: real) returns (r: Result<int>)
    requires forall x :: exp(x) > 0.0
    ensures r == ChosenToken(strategy, logits, exp, u)
  {
    match strategy.strategy
    case TopK =>
      if strategy.value < 0 {
        return Err(IllegalArgument);
      }
      var filteredLogitsWithIndexes := TopKSelection(logits, strategy.value).value;
      var probs :- Softmax(exp, Logits(filteredLogitsWithIndexes));
      var logitsIndexes := Indexes(filteredLogitsWithIndexes);
      r := Sample(logitsIndexes, probs, u);
    case Greedy =>
      var best := Argmax(logits);
      r := Ok(best);
  }

  /** Greedy choice never fails, and on a non-empty row it is the first maximum. */
  lemma GreedyChoice(logits: seq<real>, exp: real -> real, u: real)
    requires forall x :: exp(x) > 0.0
    ensures var r := ChosenToken(Strategy(Greedy, 0), logits, exp, u);
      && r.Ok?
      && (|logits| > 0 ==>
            && 0 <= r.value < |logits|
            && (forall j | 0 <= j < |logits| :: logits[j] <= logits[r.value])
            && (forall j | 0 <= j < r.value :: logits[j] < logits[r.value]))
  {
    if |logits| > 0 {
      ArgmaxOfFirstMax(logits, |logits|);
    }
  }

  /**
   * Top-k choice with 1 <= k on a non-empty row never fails: it picks one of
   * the k selected indices, whose logit is at least every logit left out.
   */
  lemma TopKChoice(logits: seq<real>, k: int, exp: real -> real, u: real)
    requires k >= 1 && |logits| > 0
    requires forall x :: exp(x) > 0.0
    ensures var r := ChosenToken(Strategy(TopK, k), logits, exp, u);
      var sel := TopKSelection(logits, k).value;
      && r.Ok?
      && 0 <= r.value < |logits|
      && (exists i | 0 <= i < |sel| :: sel[i].0 == r.value)
      && (forall j | 0 <= j < |logits| && (forall i | 0 <= i < |sel| :: sel[i].0 != j) :: logits[j] <= logits[r.value])
  {
    var sel := TopKSelection(logits, k).value;
    TopKSelectionSpec(logits, k);
    var probs := Softmax(exp, Logits(sel)).value;
    var r := SampledToken(Indexes(sel), probs, u);
    assert r == ChosenToken(Strategy(TopK, k), logits, exp, u);
    var i :| 0 <= i < |sel| && Indexes(sel)[i] == r.value;
    assert sel[i].1 == logits[r.value];
  }

  /**
   * For a draw `u` in [0, 1), the softmax weights of non-empty scores add up
   * to one, so `randomIndex` lands on the position whose slice of the running
   * total holds `u`, and that slice is not empty.
   */
  lemma SoftmaxDraw(scores: seq<real>, exp: real -> real, u: real)
    requires scores != []
    requires forall x :: exp(x) > 0.0
    requires 0.0 <= u < 1.0
    ensures Softmax(exp, scores).Ok?
    ensures var probs := Softmax(exp, scores).value;
      var p := PickIndex(probs, Sum(probs) * u);
      && Sum(probs) == 1.0
      && 0 <= p < |scores|
      && PrefixSum(probs, p) <= u < PrefixSum(probs, p + 1)
  {
    var probs := Softmax(exp, scores).value;
    SoftmaxSumsToOne(exp, scores);
    PickIndexHit(probs, u);
  }

  /** Sampling among selected pairs returns the index of the pair at the drawn position. */
  lemma SelectedDraw(sel: seq<Scored>, exp: real -> real, u: real)
    requires sel != []
    requires forall x :: exp(x) > 0.0
    requires 0.0 <= u < 1.0
    ensures Softmax(exp, Logits(sel)).Ok?
    ensures var p := PickIndex(Softmax(exp, Logits(sel)).value, u);
      0 <= p < |sel| && SampleSelected(sel, exp, u) == Ok(sel[p].0)
  {
    SoftmaxDraw(Logits(sel), exp, u);
    var probs := Softmax(exp, Logits(sel)).value;
    assert Sum(probs) * u == u;
    SampledAt(Indexes(sel), probs, u);
  }

  /** `take` with a negative count throws, and so does `max()` of an empty selection. */
  lemma ChoiceErrors(logits: seq<real>, k: int, exp: real -> real, u: real)
    requires forall x :: exp(x) > 0.0
    ensures k < 0 ==> ChosenToken(Strategy(TopK, k), logits, exp, u) == Err(IllegalArgument)
    ensures k >= 0 && (k == 0 || logits == []) ==> ChosenToken(Strategy(TopK, k), logits, exp, u) == Err(NoSuchElement)
  {
    if k >= 0 {
      TopKSelectionSpec(logits, k);
    }
  }
}
