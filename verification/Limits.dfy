/** The program's balance test in exact integers, and what re_balance achieves in terms of it. */
module Limits {
  import opened Bytes
  import opened Tables
  import opened Balance
  import opened BalanceLaws
  import opened BalanceCost

  /** A node may hold one hundredth of the total more than its share. The second tolerance only adds up to
      something from 999900 nodes on. */
  predicate WithinLimit(t: Table<Bytes>, total: nat, n: nat) {
    |t| <= 1 || 100 * n * Weight(t) <= (100 + n) * total + (100 + n) / 1000000
  }

  lemma ScaledLimit(k: real, p: real, t: real)
    requires k * p == 1.0
    ensures 100.0 * k * 1000000.0 * ((p + 0.01) * (t + 0.000001)) == (100.0 + k) * (1000000.0 * t + 1.0)
  {
    var x, y := p + 0.01, t + 0.000001;
    assert 100.0 * k * x == 100.0 * (k * p) + k;
    assert 1000000.0 * y == 1000000.0 * t + 1.0;
    assert 100.0 * k * 1000000.0 * (x * y) == (100.0 * k * x) * (1000000.0 * y);
  }

  lemma Scale(f: real, a: real, b: real)
    requires f > 0.0
    ensures a <= b <==> f * a <= f * b
  {
    if a <= b {
      assert f * (b - a) >= 0.0;
    } else {
      assert f * (a - b) > 0.0;
    }
  }

  /** Cleared of the fractions the test compares two integers. */
  lemma ScaledTest(size: nat, total: nat, n: nat)
    requires n > 0
    ensures WithinShare(size, Quota(total, 1.0 / n as real))
            <==> 1000000 * (100 * n * size) <= 1000000 * ((100 + n) * total) + (100 + n)
  {
    var k, p, t, q := n as real, 1.0 / n as real, total as real, Quota(total, 1.0 / n as real);
    LimitForm(size, q);
    ScaledLimit(k, p, t);
    Scale(100.0 * k * 1000000.0, size as real, Limit(q));
    RealProduct(100 * n, size);
    RealProduct(100 + n, total);
    assert 100.0 * k * 1000000.0 * size as real == (1000000 * (100 * n * size)) as real;
    assert (100.0 + k) * (1000000.0 * t + 1.0) == 1000000.0 * ((100.0 + k) * t) + (100.0 + k);
    assert (100.0 + k) * t == ((100 + n) * total) as real;
  }

  lemma WholePart(a: int, b: int, c: nat)
    ensures 1000000 * a <= 1000000 * b + c <==> a <= b + c / 1000000
  {
  }

  /** The test over reals, with both tolerances, is exactly the integer one. */
  lemma ExactTest(t: Table<Bytes>, s: Shards)
    requires s != []
    ensures NotTooMuch(t, QuotaOf(s)) <==> WithinLimit(t, Total(s), |s|)
  {
    hide WithinShare;
    ScaledTest(Weight(t), Total(s), |s|);
    WholePart(100 * |s| * Weight(t), (100 + |s|) * Total(s), 100 + |s|);
  }

  /** Below 999900 nodes the second tolerance is never felt. */
  lemma ExactTestPlain(t: Table<Bytes>, s: Shards)
    requires 0 < |s| < 999900
    ensures NotTooMuch(t, QuotaOf(s)) <==> |t| <= 1 || 100 * |s| * Weight(t) <= (100 + |s|) * Total(s)
  {
    hide WithinShare;
    ExactTest(t, s);
    assert (100 + |s|) / 1000000 == 0;
  }

  // ---------- balance

  /** Nodes from.. are within the limit of the total actually stored. */
  ghost predicate Even(s: Shards, from: nat) {
    forall i :: from <= i < |s| ==> WithinLimit(s[i], Total(s), |s|)
  }

  /** Every node but the first is within the limit, and the first is too unless no cut of the same entries
      into as many parts puts all of them within it. */
  ghost predicate Balanced(s: Shards) {
    Even(s, 1) && (Even(s, 0) <==> exists cut :: Recut(s, cut) && Even(cut, 0))
  }

  lemma EvenIsFine(s: Shards, r: Shards, from: nat)
    requires s != [] && Recut(s, r)
    ensures Even(r, from) <==> Fine(r, from, |r|, QuotaOf(s))
  {
    hide NotTooMuch, WithinLimit;
    TotalIsWeight(s);
    TotalIsWeight(r);
    forall i | 0 <= i < |r|
      ensures NotTooMuch(r[i], QuotaOf(s)) <==> WithinLimit(r[i], Total(r), |r|)
    {
      ExactTest(r[i], s);
    }
  }

  /** Whatever the nodes hold, after both passes they are balanced. */
  lemma SettleBalances(s: Shards)
    requires s != []
    ensures Balanced(Settle(s))
  {
    hide Settle, Even, Fine, NotTooMuch, WithinLimit, QuotaOf;
    var r, q := Settle(s), QuotaOf(s);
    SettleKeepsSequence(s);
    SettleOutcome(s);
    BalancedIffPossible(s);
    EvenIsFine(s, r, 0);
    EvenIsFine(s, r, 1);
    forall cut | |cut| == |s|
      ensures Recut(s, cut) == Recut(r, cut)
      ensures Recut(s, cut) ==> (Even(cut, 0) <==> Fine(cut, 0, |cut|, q))
    {
      if Recut(s, cut) {
        EvenIsFine(s, cut, 0);
      }
    }
  }
}
