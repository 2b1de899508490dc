/**
 * The arithmetic of the quadratic-funding distribution, as pure functions.
 *
 * A donation set is a sequence of grants; a grant is a sequence of donation
 * amounts. For grant i the program computes
 *   x[i] = (sum of d*d over its donations)^2      (the literal formula)
 *   y[i] = sum of d over its donations
 * and pays out y[i] + x[i] * matching / sum(x), with floor division.
 * All values here are unbounded naturals; the 256-bit width enters through
 * `NoOverflow`, which the imperative model in module Guest requires.
 */
module QuadraticFunding {
  import opened BigEndian
  import opened Arith

  /** The two ways the computation aborts. */
  datatype Error =
    | DivisionByZero       // cumulative_quadratic == 0 at the division
    | RootLengthMismatch   // the Merkle root is not 32 bytes long

  datatype Result<+T> = Ok(value: T) | Err(error: Error)

  function Amount(d: nat): nat { d }

  function Square(d: nat): nat { d * d }

  /** f(s[0]) + ... + f(s[|s|-1]), accumulated left to right. */
  function Total(s: seq<nat>, f: nat -> nat): nat
  {
    if s == [] then 0 else Total(s[..|s| - 1], f) + f(s[|s| - 1])
  }

  /** Sum of the donations of one grant: y[i]. */
  function Sum(g: seq<nat>): nat { Total(g, Amount) }

  /** Sum of the squared donations of one grant, before it is squared. */
  function SumSq(g: seq<nat>): nat { Total(g, Square) }

  /** The quadratic score x[i] of one grant: (sum of d*d)^2. */
  function X(g: seq<nat>): nat { SumSq(g) * SumSq(g) }

  /** cumulative_quadratic: the sum of x[i] over all grants. */
  function Cumulative(ds: seq<seq<nat>>): nat
  {
    if ds == [] then 0 else Cumulative(ds[..|ds| - 1]) + X(ds[|ds| - 1])
  }

  /** The matched part of one grant's payout when the scores sum to c. */
  function Share(g: seq<nat>, m: nat, c: nat): nat
    requires c > 0
  {
    X(g) * m / c
  }

  /**
   * receive[i] for every grant, or the division-by-zero abort, which happens
   * on the first grant of the payout loop whenever the scores sum to zero.
   */
  function Payouts(ds: seq<seq<nat>>, m: nat): (r: Result<seq<nat>>)
    ensures r.Ok? ==> |r.value| == |ds|
    ensures r.Ok? ==> forall i :: 0 <= i < |ds| ==> Sum(ds[i]) <= r.value[i]
  {
    var c := Cumulative(ds);
    if |ds| > 0 && c == 0 then Err(DivisionByZero)
    else Ok(seq(|ds|, i requires 0 <= i < |ds| => Sum(ds[i]) + Share(ds[i], m, c)))
  }

  /**
   * Every value the program stores fits in 256 bits: each score, the running
   * cumulative score, each grant's running sums, each product x[i] * m and
   * each payout. Partial sums are bounded by the totals, so the totals suffice.
   */
  ghost predicate NoOverflow(ds: seq<seq<nat>>, m: nat)
  {
    && ScoresFit(ds)
    && (forall i :: 0 <= i < |ds| ==> X(ds[i]) * m < WordLimit)
    && (Cumulative(ds) > 0 ==>
          forall i :: 0 <= i < |ds| ==> Sum(ds[i]) + Share(ds[i], m, Cumulative(ds)) < WordLimit)
  }

  /** The part of NoOverflow the score loop needs: the cumulative score and each y[i] fit. */
  ghost predicate ScoresFit(ds: seq<seq<nat>>)
  {
    Cumulative(ds) < WordLimit && forall i :: 0 <= i < |ds| ==> Sum(ds[i]) < WordLimit
  }

  predicate AllZero(ds: seq<seq<nat>>)
  {
    forall i, j :: 0 <= i < |ds| && 0 <= j < |ds[i]| ==> ds[i][j] == 0
  }

  // ---------------------------------------------------------------------
  // Sums

  lemma TotalSnoc(s: seq<nat>, d: nat, f: nat -> nat)
    ensures Total(s + [d], f) == Total(s, f) + f(d)
  {
    assert (s + [d])[..|s|] == s;
  }

  /** A running total never exceeds the total over the whole sequence. */
  lemma {:induction false} TotalPrefix(s: seq<nat>, k: nat, f: nat -> nat)
    requires k <= |s|
    ensures Total(s[..k], f) <= Total(s, f)
  {
    if k < |s| {
      assert s[..|s|][..|s| - 1] == s[..|s| - 1];
      assert s[..|s| - 1][..k] == s[..k];
      TotalPrefix(s[..|s| - 1], k, f);
    } else {
      assert s[..k] == s;
    }
  }

  /** One more donation extends both running sums of a grant, within their totals. */
  lemma RunningSumsStep(g: seq<nat>, j: nat)
    requires j < |g|
    ensures SumSq(g[..j + 1]) == SumSq(g[..j]) + g[j] * g[j] <= SumSq(g)
    ensures Sum(g[..j + 1]) == Sum(g[..j]) + g[j] <= Sum(g)
  {
    assert g[..j + 1] == g[..j] + [g[j]];
    TotalSnoc(g[..j], g[j], Square);
    TotalSnoc(g[..j], g[j], Amount);
    TotalPrefix(g, j + 1, Square);
    TotalPrefix(g, j + 1, Amount);
  }

  /** Each term is at most the total. */
  lemma {:induction false} TotalTerm(s: seq<nat>, k: nat, f: nat -> nat)
    requires k < |s|
    ensures f(s[k]) <= Total(s, f)
  {
    TotalPrefix(s, k + 1, f);
    assert s[..k + 1] == s[..k] + [s[k]];
    TotalSnoc(s[..k], s[k], f);
  }

  /** A total is zero exactly when every term is zero. */
  lemma {:induction false} TotalZero(s: seq<nat>, f: nat -> nat)
    ensures Total(s, f) == 0 <==> forall k :: 0 <= k < |s| ==> f(s[k]) == 0
  {
    if Total(s, f) == 0 {
      forall k | 0 <= k < |s| ensures f(s[k]) == 0 {
        TotalTerm(s, k, f);
      }
    }
    if s != [] && forall k :: 0 <= k < |s| ==> f(s[k]) == 0 {
      var init := s[..|s| - 1];
      assert forall k :: 0 <= k < |init| ==> f(init[k]) == 0 by {
        forall k | 0 <= k < |init| ensures f(init[k]) == 0 {
          assert init[k] == s[k];
        }
      }
      TotalZero(init, f);
    }
  }

  /** Taking one term out of the middle lowers the total by that term. */
  lemma {:induction false} TotalRemove(s: seq<nat>, k: nat, f: nat -> nat)
    requires k < |s|
    ensures Total(s, f) == Total(s[..k] + s[k + 1..], f) + f(s[k])
  {
    var n := |s|;
    if k == n - 1 {
      assert s[..k] + s[k + 1..] == s[..n - 1];
    } else {
      var init := s[..n - 1];
      var rest := s[..k] + s[k + 1..];
      TotalRemove(init, k, f);
      assert init[..k] + init[k + 1..] == rest[..|rest| - 1];
      assert rest[|rest| - 1] == s[n - 1];
    }
  }

  /** Totals do not depend on the order of the terms. */
  lemma {:induction false} TotalPermutation(s: seq<nat>, t: seq<nat>, f: nat -> nat)
    requires multiset(s) == multiset(t)
    ensures Total(s, f) == Total(t, f)
  {
    if s == [] {
      assert |t| == |multiset(t)| == 0;
    } else {
      var n := |s|;
      var init, last := s[..n - 1], s[n - 1];
      assert multiset(init) == multiset(s) - multiset{last} by {
        assert s == init + [last];
      }
      assert last in multiset(t);
      var k :| 0 <= k < |t| && t[k] == last;
      var rest := t[..k] + t[k + 1..];
      assert multiset(rest) == multiset(t) - multiset{last} by {
        assert t == t[..k] + [t[k]] + t[k + 1..];
      }
      TotalPermutation(init, rest, f);
      TotalRemove(t, k, f);
    }
  }

  // ---------------------------------------------------------------------
  // Scores

  /** A grant's score is zero exactly when all its donations are zero. */
  lemma ScoreZero(g: seq<nat>)
    ensures X(g) == 0 <==> forall k :: 0 <= k < |g| ==> g[k] == 0
  {
    TotalZero(g, Square);
    forall k | 0 <= k < |g| ensures Square(g[k]) == 0 <==> g[k] == 0 {
      if g[k] > 0 {
        assert g[k] * g[k] >= g[k];
      }
    }
  }

  /** The sum of squares is at most its square (used for overflow bounds). */
  lemma SumSqBelowScore(g: seq<nat>)
    ensures SumSq(g) <= X(g)
  {
    var s := SumSq(g);
    if s > 0 {
      assert s * s >= s * 1;
    }
  }

  /** One grant's score is at most the cumulative score. */
  lemma {:induction false} ScoreBelowCumulative(ds: seq<seq<nat>>, i: nat)
    requires i < |ds|
    ensures X(ds[i]) <= Cumulative(ds)
  {
    if i < |ds| - 1 {
      ScoreBelowCumulative(ds[..|ds| - 1], i);
    }
  }

  lemma CumulativeSnoc(ds: seq<seq<nat>>, g: seq<nat>)
    ensures Cumulative(ds + [g]) == Cumulative(ds) + X(g)
  {
    assert (ds + [g])[..|ds|] == ds;
  }

  /** One more grant extends the running cumulative score, within the total. */
  lemma RunningCumulativeStep(ds: seq<seq<nat>>, i: nat)
    requires i < |ds|
    ensures Cumulative(ds[..i + 1]) == Cumulative(ds[..i]) + X(ds[i]) <= Cumulative(ds)
    ensures X(ds[i]) <= Cumulative(ds)
  {
    assert Cumulative(ds[..i + 1]) == Cumulative(ds[..i]) + X(ds[i]) by {
      assert ds[..i + 1] == ds[..i] + [ds[i]];
      CumulativeSnoc(ds[..i], ds[i]);
    }
    CumulativePrefix(ds, i + 1);
    ScoreBelowCumulative(ds, i);
  }

  /** The running cumulative score never exceeds the final one. */
  lemma {:induction false} CumulativePrefix(ds: seq<seq<nat>>, k: nat)
    requires k <= |ds|
    ensures Cumulative(ds[..k]) <= Cumulative(ds)
  {
    if k < |ds| {
      assert ds[..|ds| - 1][..k] == ds[..k];
      CumulativePrefix(ds[..|ds| - 1], k);
    } else {
      assert ds[..k] == ds;
    }
  }

  /** The scores sum to zero exactly when every donation is zero (or there are none). */
  lemma {:induction false} CumulativeZero(ds: seq<seq<nat>>)
    ensures Cumulative(ds) == 0 <==> AllZero(ds)
  {
    if ds != [] {
      var init, last := ds[..|ds| - 1], ds[|ds| - 1];
      CumulativeZero(init);
      ScoreZero(last);
      if AllZero(ds) {
        assert AllZero(init) by {
          forall i, j | 0 <= i < |init| && 0 <= j < |init[i]| ensures init[i][j] == 0 {
            assert init[i] == ds[i];
          }
        }
        assert forall k :: 0 <= k < |last| ==> last[k] == 0 by {
          forall k | 0 <= k < |last| ensures last[k] == 0 {
            assert ds[|ds| - 1][k] == 0;
          }
        }
      }
      if Cumulative(ds) == 0 {
        forall i, j | 0 <= i < |ds| && 0 <= j < |ds[i]| ensures ds[i][j] == 0 {
          if i < |ds| - 1 {
            assert ds[i] == init[i];
          }
        }
      }
    }
  }

  /** Replacing a grant by one with the same score keeps the cumulative score. */
  lemma {:induction false} CumulativeReplace(ds: seq<seq<nat>>, i: nat, g: seq<nat>)
    requires i < |ds| && X(g) == X(ds[i])
    ensures Cumulative(ds[i := g]) == Cumulative(ds)
  {
    var n := |ds|;
    var es := ds[i := g];
    if i < n - 1 {
      assert es[..n - 1] == ds[..n - 1][i := g];
      CumulativeReplace(ds[..n - 1], i, g);
    } else {
      assert es[..n - 1] == ds[..n - 1];
    }
  }

  // ---------------------------------------------------------------------
  // Properties of the payout

  /**
   * The payout aborts on division by zero exactly when there is at least one
   * grant and every donation is zero; this holds whatever the matching amount,
   * and with no grants there is nothing to divide.
   */
  lemma DivisionByZeroIff(ds: seq<seq<nat>>, m: nat)
    ensures Payouts(ds, m) == Err(DivisionByZero) <==> |ds| > 0 && AllZero(ds)
    ensures Payouts(ds, m).Err? ==> Payouts(ds, m).error == DivisionByZero
  {
    CumulativeZero(ds);
  }

  /** Every empty grant yields zero scores, so a non-empty set of empty grants aborts. */
  lemma EmptyGrantsAbort(ds: seq<seq<nat>>, m: nat)
    requires |ds| > 0
    requires forall i :: 0 <= i < |ds| ==> ds[i] == []
    ensures Payouts(ds, m) == Err(DivisionByZero)
  {
    CumulativeZero(ds);
  }

  /** The sum of the matched parts y[i] excluded, with all scores divided by c. */
  function Shares(ds: seq<seq<nat>>, m: nat, c: nat): nat
    requires c > 0
  {
    if ds == [] then 0 else Shares(ds[..|ds| - 1], m, c) + Share(ds[|ds| - 1], m, c)
  }

  /** The sum over all grants of receive[i] - y[i]. */
  function MatchedTotal(receive: seq<nat>, ds: seq<seq<nat>>): int
    requires |receive| == |ds|
  {
    if ds == [] then 0
    else MatchedTotal(receive[..|ds| - 1], ds[..|ds| - 1]) + (receive[|ds| - 1] - Sum(ds[|ds| - 1]))
  }

  /** One more floored quotient keeps both bounds of SharesBounds. */
  lemma FloorStep(s0: nat, c0: nat, a: nat, m: nat, c: nat, n0: nat)
    requires c > 0
    requires s0 * c <= c0 * m <= s0 * c + n0 * (c - 1)
    ensures (s0 + a / c) * c <= c0 * m + a <= (s0 + a / c) * c + (n0 + 1) * (c - 1)
  {
    FloorDivBounds(a, c);
    MulAddDistrib(s0, a / c, c);
    MulAddDistrib(n0, 1, c - 1);
  }

  /**
   * Flooring each share loses less than one unit per grant:
   * shares * c <= cumulative * m <= shares * c + |ds| * (c - 1).
   */
  lemma {:induction false} SharesBounds(ds: seq<seq<nat>>, m: nat, c: nat)
    requires c > 0
    ensures Shares(ds, m, c) * c <= Cumulative(ds) * m
    ensures Cumulative(ds) * m <= Shares(ds, m, c) * c + |ds| * (c - 1)
  {
    if ds != [] {
      var init, last := ds[..|ds| - 1], ds[|ds| - 1];
      SharesBounds(init, m, c);
      var c0, x := Cumulative(init), X(last);
      FloorStep(Shares(init, m, c), c0, x * m, m, c, |init|);
      MulAddDistrib(c0, x, m);
    }
  }

  /** Dividing the bounds of SharesBounds by c, when c is the cumulative score. */
  lemma DivideBounds(s: nat, m: nat, c: nat, n: nat)
    requires c > 0
    requires s * c <= c * m <= s * c + n * (c - 1)
    ensures s <= m
    ensures n > 0 ==> m < s + n
  {
    assert c * m == m * c;
    MulLeCancel(s, m, c);
    if n > 0 {
      MulAddDistrib(c, -1, n);
      MulAddDistrib(s, n, c);
      MulLessCancel(m, s + n, c);
    }
  }

  /** The matched parts of a list of payouts sum to the shares of their grants. */
  lemma {:induction false} MatchedIsShares(receive: seq<nat>, ds: seq<seq<nat>>, m: nat, c: nat)
    requires c > 0 && |receive| == |ds|
    requires forall i :: 0 <= i < |ds| ==> receive[i] == Sum(ds[i]) + Share(ds[i], m, c)
    ensures MatchedTotal(receive, ds) == Shares(ds, m, c)
  {
    if ds != [] {
      var n := |ds|;
      MatchedIsShares(receive[..n - 1], ds[..n - 1], m, c);
    }
  }

  /**
   * The matched parts of the payouts never exceed the matching pool, and fall
   * short of it by less than one unit per grant (floor-division remainders).
   */
  lemma MatchWithinPool(ds: seq<seq<nat>>, m: nat)
    requires Payouts(ds, m).Ok?
    ensures MatchedTotal(Payouts(ds, m).value, ds) <= m
    ensures |ds| > 0 ==> m < MatchedTotal(Payouts(ds, m).value, ds) + |ds|
  {
    var receive := Payouts(ds, m).value;
    if ds != [] {
      var c := Cumulative(ds);
      MatchedIsShares(receive, ds, m, c);
      SharesBounds(ds, m, c);
      DivideBounds(Shares(ds, m, c), m, c, |ds|);
    }
  }

  /**
   * A single grant with a non-zero score receives its donations plus the whole
   * matching pool.
   */
  lemma SingleGrant(g: seq<nat>, m: nat)
    requires X(g) > 0
    ensures Payouts([g], m) == Ok([Sum(g) + m])
  {
    var c := Cumulative([g]);
    CumulativeSnoc([], g);
    assert [] + [g] == [g];
    assert c == X(g);
    assert X(g) * m / c == m by {
      DivOfMultiple(c, m);
    }
    assert Payouts([g], m).value == [Sum(g) + m];
  }

  /**
   * Reordering the donations of one grant changes no payout: neither that
   * grant's nor any other's, since the cumulative score is unchanged.
   */
  lemma ReorderDonations(ds: seq<seq<nat>>, i: nat, g: seq<nat>, m: nat)
    requires i < |ds| && multiset(g) == multiset(ds[i])
    ensures Payouts(ds[i := g], m) == Payouts(ds, m)
  {
    TotalPermutation(g, ds[i], Amount);
    TotalPermutation(g, ds[i], Square);
    CumulativeReplace(ds, i, g);
    SameScoresSamePayouts(ds, ds[i := g], m);
  }

  /** Grant lists with the same sums and scores, grant by grant, are paid alike. */
  lemma SameScoresSamePayouts(ds: seq<seq<nat>>, es: seq<seq<nat>>, m: nat)
    requires |es| == |ds| && Cumulative(es) == Cumulative(ds)
    requires forall k :: 0 <= k < |ds| ==> Sum(es[k]) == Sum(ds[k]) && X(es[k]) == X(ds[k])
    ensures Payouts(es, m) == Payouts(ds, m)
  {
    if Payouts(ds, m).Ok? {
      var c := Cumulative(ds);
      var a, b := Payouts(es, m).value, Payouts(ds, m).value;
      forall k | 0 <= k < |ds| ensures a[k] == b[k] {
        assert Share(es[k], m, c) == Share(ds[k], m, c);
      }
      assert a == b;
    }
  }

  /** s with the entries at positions i and j exchanged. */
  function Swap<T>(s: seq<T>, i: nat, j: nat): (r: seq<T>)
    requires i < |s| && j < |s|
    ensures |r| == |s| && r[i] == s[j] && r[j] == s[i]
    ensures forall k :: 0 <= k < |s| && k != i && k != j ==> r[k] == s[k]
    ensures multiset(r) == multiset(s)
  {
    s[i := s[j]][j := s[i]]
  }

  /** The scores of all grants, in grant order. */
  function ScoreList(ds: seq<seq<nat>>): (xs: seq<nat>)
    ensures |xs| == |ds|
  {
    seq(|ds|, k requires 0 <= k < |ds| => X(ds[k]))
  }

  /** The cumulative score is the plain total of the score list. */
  lemma {:induction false} CumulativeIsTotal(ds: seq<seq<nat>>)
    ensures Cumulative(ds) == Total(ScoreList(ds), Amount)
  {
    if ds != [] {
      var n := |ds|;
      CumulativeIsTotal(ds[..n - 1]);
      assert ScoreList(ds)[..n - 1] == ScoreList(ds[..n - 1]);
    }
  }

  /** Exchanging two grants keeps the cumulative score. */
  lemma CumulativeSwap(ds: seq<seq<nat>>, i: nat, j: nat)
    requires i < |ds| && j < |ds|
    ensures Cumulative(Swap(ds, i, j)) == Cumulative(ds)
  {
    var es := Swap(ds, i, j);
    CumulativeIsTotal(ds);
    CumulativeIsTotal(es);
    assert ScoreList(es) == Swap(ScoreList(ds), i, j);
    TotalPermutation(ScoreList(es), ScoreList(ds), Amount);
  }

  /**
   * Exchanging two grants exchanges their payouts and changes no other: the
   * payout follows the grant, not its position. An abort stays an abort.
   */
  lemma SwapGrants(ds: seq<seq<nat>>, i: nat, j: nat, m: nat)
    requires i < |ds| && j < |ds|
    ensures Payouts(ds, m).Err? ==> Payouts(Swap(ds, i, j), m) == Payouts(ds, m)
    ensures Payouts(ds, m).Ok? ==> Payouts(Swap(ds, i, j), m) == Ok(Swap(Payouts(ds, m).value, i, j))
  {
    CumulativeSwap(ds, i, j);
    var es := Swap(ds, i, j);
    if Payouts(ds, m).Ok? {
      var a, b := Payouts(es, m).value, Swap(Payouts(ds, m).value, i, j);
      forall k | 0 <= k < |ds| ensures a[k] == b[k] {
        if k == i {
          assert es[k] == ds[j];
        } else if k == j {
          assert es[k] == ds[i];
        } else {
          assert es[k] == ds[k];
        }
      }
      assert a == b;
    }
  }

  /** The scores of the two-grant example: 100^2 and 400^2. */
  lemma TwoGrantScores()
    ensures Sum([10]) == 10 && X([10]) == 10000
    ensures Sum([20]) == 20 && X([20]) == 160000
    ensures Cumulative([[10], [20]]) == 170000
  {
    TotalSnoc([], 10, Amount);
    TotalSnoc([], 10, Square);
    TotalSnoc([], 20, Amount);
    TotalSnoc([], 20, Square);
    assert [] + [10] == [10] && [] + [20] == [20];
    CumulativeSnoc([], [10]);
    CumulativeSnoc([[10]], [20]);
    assert [] + [[10]] == [[10]] && [[10]] + [[20]] == [[10], [20]];
  }

  /** The two-grant example {10}, {20} with a pool of 300: shares 17 and 282. */
  lemma TwoGrantExample()
    ensures Payouts([[10], [20]], 300) == Ok([27, 302])
  {
    TwoGrantScores();
    assert Share([10], 300, 170000) == 17;
    assert Share([20], 300, 170000) == 282;
    var r := Payouts([[10], [20]], 300).value;
    assert r == [27, 302];
  }
}
