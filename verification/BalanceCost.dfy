/** How far off balance the first node can be left, and how many migrations a call performs. */
module BalanceCost {
  import opened Bytes
  import opened Tables
  import opened Balance
  import opened BalanceLaws

  // ---------- the size of node 0

  ghost predicate NoHeavier(t: Table<Bytes>, w: nat) {
    forall i :: 0 <= i < |t| ==> EntryWeight(t[i]) <= w
  }

  /** k times x. */
  function Times(k: nat, x: real): real {
    if k == 0 then 0.0 else x + Times(k - 1, x)
  }

  lemma {:induction false} TimesIsProduct(k: nat, x: real)
    ensures Times(k, x) == k as real * x
  {
    if k > 0 {
      TimesIsProduct(k - 1, x);
      assert k as real * x == (k - 1) as real * x + x;
    }
  }

  /** limit is the size up to which a node is within its share. */
  ghost predicate IsLimit(limit: real, q: Quota) {
    forall size :: WithinShare(size, q) <==> size as real <= limit
  }

  lemma LimitOf(total: nat, n: nat) returns (limit: real)
    requires n > 0
    ensures IsLimit(limit, Quota(total, 1.0 / n as real))
    ensures Times(n, limit) > total as real
  {
    var q := Quota(total, 1.0 / n as real);
    limit := Limit(q);
    forall size
      ensures WithinShare(size, q) <==> size as real <= limit
    {
      LimitForm(size, q);
    }
    LimitAboveShare(total, n);
    TimesIsProduct(n, limit);
  }

  lemma FullIsHeavy(r: Shards, j: nat, q: Quota, w: nat, limit: real)
    requires 0 < j < |r| && Full(r, j, q) && NoHeavier(r[j - 1], w) && IsLimit(limit, q)
    ensures Weight(r[j]) as real > limit - w as real
  {
    var p := r[j - 1];
    var e := p[|p| - 1];
    WeightConcat([e], r[j]);
    WeightOne(e);
  }

  lemma {:induction false} TailIsHeavy(r: Shards, j: nat, q: Quota, w: nat, limit: real)
    requires 0 < j <= |r| && Tight(r, 1, q) && IsLimit(limit, q)
    requires forall i :: 0 <= i < |r| ==> NoHeavier(r[i], w)
    ensures Total(r[j..]) as real >= Times(|r| - j, limit - w as real)
    decreases |r| - j
  {
    if j < |r| {
      assert Full(r, j, q);
      FullIsHeavy(r, j, q, w, limit);
      TailIsHeavy(r, j + 1, q, w, limit);
      assert r[j..][1..] == r[j + 1..];
    }
  }

  /** first < total/n + (n-1)*w, cleared of the fraction. */
  predicate NearShare(first: nat, total: nat, n: nat, w: nat) {
    n * first < total + n * ((n - 1) * w)
  }

  lemma LimitAboveShare(total: nat, n: nat)
    requires n > 0
    ensures n as real * Limit(Quota(total, 1.0 / n as real)) > total as real
  {
    var t, k, p := total as real, n as real, 1.0 / n as real;
    assert p > 0.0 && k * p == 1.0;
    ProductAboveShare(k, p, t);
  }

  lemma ProductAboveShare(k: real, p: real, t: real)
    requires p > 0.0 && k * p == 1.0 && t >= 0.0 && k >= 1.0
    ensures k * ((p + 0.01) * (t + 0.000001)) > t
  {
    assert k * ((p + 0.01) * (t + 0.000001)) == (k * p + k * 0.01) * (t + 0.000001);
    assert k * 0.01 * (t + 0.000001) >= 0.0;
  }

  /** With the other nodes all heavier than limit - w, the first is near its share. */
  lemma ShareArithmetic(first: nat, rest: nat, n: nat, w: nat, limit: real)
    requires n > 0 && Times(n, limit) > (first + rest) as real
    requires rest as real >= Times(n - 1, limit - w as real)
    ensures NearShare(first, first + rest, n, w) || n == 1
  {
    TimesIsProduct(n, limit);
    TimesIsProduct(n - 1, limit - w as real);
    if n > 1 {
      RealShare(first as real, rest as real, n as real, w as real, limit);
      Integral(first, first + rest, n, w);
    }
  }

  lemma RealShare(f: real, r: real, n: real, w: real, limit: real)
    requires n >= 2.0 && n * limit > f + r && r >= (n - 1.0) * (limit - w)
    ensures n * f < f + r + n * ((n - 1.0) * w)
  {
    var x, y := (n - 1.0) * limit, (n - 1.0) * w;
    assert (n - 1.0) * (limit - w) == x - y;
    assert f <= f + r - x + y;
    assert n * f <= n * (f + r - x + y);
    assert n * (f + r - x + y) == n * (f + r) - n * x + n * y;
    assert n * x == (n - 1.0) * (n * limit);
    assert (n - 1.0) * (n * limit - (f + r)) > 0.0;
    assert (n - 1.0) * (n * limit - (f + r)) == (n - 1.0) * (n * limit) - n * (f + r) + (f + r);
  }

  lemma Integral(first: nat, total: nat, n: nat, w: nat)
    requires n as real * first as real < total as real + n as real * ((n as real - 1.0) * w as real)
    ensures NearShare(first, total, n, w)
  {
    var k := n - 1;
    assert k as real == n as real - 1.0;
    RealProduct(k, w);
    RealProduct(n, k * w);
    RealProduct(n, first);
  }

  lemma RealProduct(a: int, b: int)
    ensures (a * b) as real == a as real * b as real
  {
  }

  lemma NoHeavierPart(s: Shards, i: nat, w: nat)
    requires i < |s| && NoHeavier(Flatten(s), w)
    ensures NoHeavier(s[i], w)
  {
    FlattenAround(s, i);
    forall k | 0 <= k < |s[i]|
      ensures EntryWeight(s[i][k]) <= w
    {
      assert s[i][k] == Flatten(s)[|Flatten(s[..i])| + k];
    }
  }

  /** Every node but the first ends within the limit; the first does too, or is at most the weight of
      n-1 entries above its fair share. */
  lemma FirstNodeBound(s: Shards, w: nat)
    requires s != [] && NoHeavier(Flatten(s), w)
    ensures Fine(Settle(s), 1, |s|, QuotaOf(s))
    ensures NotTooMuch(Settle(s)[0], QuotaOf(s)) || NearShare(Weight(Settle(s)[0]), Total(s), |s|, w)
  {
    SettleKeepsSequence(s);
    SettleOutcome(s);
    if !NotTooMuch(Settle(s)[0], QuotaOf(s)) {
      forall i | 0 <= i < |s|
        ensures NoHeavier(Settle(s)[i], w)
      {
        NoHeavierPart(Settle(s), i, w);
      }
      FullRowBound(Settle(s), QuotaOf(s), w);
    }
  }

  lemma FullRowBound(r: Shards, q: Quota, w: nat)
    requires r != [] && q.total == Total(r) && q.perfect == 1.0 / |r| as real
    requires Tight(r, 1, q) && !NotTooMuch(r[0], q)
    requires forall i :: 0 <= i < |r| ==> NoHeavier(r[i], w)
    ensures NearShare(Weight(r[0]), Total(r), |r|, w)
  {
    var limit := LimitOf(Total(r), |r|);
    TailIsHeavy(r, 1, q, w, limit);
    ShareArithmetic(Weight(r[0]), Total(r[1..]), |r|, w, limit);
    if |r| == 1 {
      SingleFits(r, limit);
    }
  }

  lemma SingleFits(r: Shards, limit: real)
    requires |r| == 1 && Times(|r|, limit) > Total(r) as real
    ensures Weight(r[0]) as real <= limit
  {
    assert r[1..] == [];
  }

  // ---------- counting migrations

  /** The sum of node number times number of entries, the first node counting k. */
  function Potential(s: Shards, k: nat): nat {
    if s == [] then 0 else k * |s[0]| + Potential(s[1..], k + 1)
  }

  /** A forward migration raises the potential by exactly one, a backward one lowers it by exactly one. */
  lemma {:induction false} ShiftPotential(s: Shards, i: nat, fwd: bool, k: nat)
    requires Neighboured(s, i, fwd) && s[i] != []
    ensures Potential(Shift(s, i, fwd), k) == Potential(s, k) + if fwd then 1 else -1
  {
    if i == 0 || (i == 1 && !fwd) {
      FirstPair(s, Shift(s, i, fwd), if fwd then 1 else -1, k);
    } else {
      assert Shift(s, i, fwd)[1..] == Shift(s[1..], i - 1, fwd);
      ShiftPotential(s[1..], i - 1, fwd, k + 1);
    }
  }

  /** d entries move from the first node to the second. */
  lemma FirstPair(s: Shards, r: Shards, d: int, k: nat)
    requires |s| >= 2 && |r| == |s| && r[2..] == s[2..]
    requires |r[0]| == |s[0]| - d && |r[1]| == |s[1]| + d
    ensures Potential(r, k) == Potential(s, k) + d
  {
    assert r[1..][1..] == r[2..] && s[1..][1..] == s[2..];
    PairPotential(s, k);
    PairPotential(r, k);
    Spread(k, |s[0]|, |r[0]|);
    Spread(k, |s[1]|, |r[1]|);
    assert (k + 1) * |s[1]| == k * |s[1]| + |s[1]|;
    assert (k + 1) * |r[1]| == k * |r[1]| + |r[1]|;
    assert k * (-d) == -(k * d);
  }

  lemma PairPotential(s: Shards, k: nat)
    requires |s| >= 2
    ensures Potential(s, k) == k * |s[0]| + (k + 1) * |s[1]| + Potential(s[1..][1..], k + 2)
  {
  }

  lemma Spread(k: int, a: int, b: int)
    ensures k * b == k * a + k * (b - a)
  {
  }

  lemma {:induction false} PotentialBound(s: Shards, k: nat)
    requires s != []
    ensures Potential(s, k) <= (k + |s| - 1) * |Flatten(s)|
  {
    if |s| == 1 {
      assert s[1..] == [];
    } else {
      PotentialBound(s[1..], k + 1);
      Widen(k, k + |s| - 1, |s[0]|, |Flatten(s[1..])|, Potential(s[1..], k + 1));
    }
  }

  lemma Widen(k: nat, top: nat, a: nat, b: nat, p: nat)
    requires k <= top && p <= top * b
    ensures k * a + p <= top * (a + b)
  {
    assert (top - k) * a >= 0;
    assert top * (a + b) == top * a + top * b;
  }

  function DrainMoves(s: Shards, i: nat, fwd: bool, q: Quota): nat
    requires Neighboured(s, i, fwd)
    decreases |s[i]|
  {
    if NotTooMuch(s[i], q) then 0 else 1 + DrainMoves(Shift(s, i, fwd), i, fwd, q)
  }

  function ForwardMoves(s: Shards, i: nat, q: Quota): nat
    decreases |s| - i
  {
    if i + 1 >= |s| then 0 else DrainMoves(s, i, true, q) + ForwardMoves(Drain(s, i, true, q), i + 1, q)
  }

  function BackwardMoves(s: Shards, i: nat, q: Quota): nat
    requires i < |s|
    decreases i
  {
    if i == 0 then 0 else DrainMoves(s, i, false, q) + BackwardMoves(Drain(s, i, false, q), i - 1, q)
  }

  /** The number of migrations one call of re_balance performs. */
  function Moves(s: Shards): nat
    requires s != []
  {
    var q := QuotaOf(s);
    ForwardMoves(s, 0, q) + BackwardMoves(Forward(s, 0, q), |s| - 1, q)
  }

  lemma {:induction false} DrainPotential(s: Shards, i: nat, fwd: bool, q: Quota)
    requires Neighboured(s, i, fwd)
    ensures var d := DrainMoves(s, i, fwd, q);
            if fwd then Potential(Drain(s, i, fwd, q), 0) == Potential(s, 0) + d
            else Potential(Drain(s, i, fwd, q), 0) == Potential(s, 0) - d
    decreases |s[i]|
  {
    if !NotTooMuch(s[i], q) {
      ShiftPotential(s, i, fwd, 0);
      DrainPotential(Shift(s, i, fwd), i, fwd, q);
    }
  }

  lemma {:induction false} ForwardPotential(s: Shards, i: nat, q: Quota)
    ensures Potential(Forward(s, i, q), 0) == Potential(s, 0) + ForwardMoves(s, i, q)
    decreases |s| - i
  {
    if i + 1 < |s| {
      DrainPotential(s, i, true, q);
      ForwardPotential(Drain(s, i, true, q), i + 1, q);
    }
  }

  lemma {:induction false} BackwardPotential(s: Shards, i: nat, q: Quota)
    requires i < |s|
    ensures Potential(Backward(s, i, q), 0) == Potential(s, 0) - BackwardMoves(s, i, q)
    decreases i
  {
    if i > 0 {
      DrainPotential(s, i, false, q);
      BackwardPotential(Drain(s, i, false, q), i - 1, q);
    }
  }

  /** Each pass performs exactly as many migrations as it changes the potential, so a call performs at
      most (n-1)*N in each direction for N entries on n nodes. */
  lemma MovesBound(s: Shards)
    requires s != []
    ensures var q, n, f := QuotaOf(s), |Flatten(s)|, Forward(s, 0, QuotaOf(s));
            && ForwardMoves(s, 0, q) == Potential(f, 0) - Potential(s, 0)
            && BackwardMoves(f, |s| - 1, q) == Potential(f, 0) - Potential(Settle(s), 0)
            && Moves(s) <= 2 * ((|s| - 1) * n)
  {
    var q, f := QuotaOf(s), Forward(s, 0, QuotaOf(s));
    ForwardPotential(s, 0, q);
    BackwardPotential(f, |s| - 1, q);
    ForwardKeepsSequence(s, 0, q);
    PotentialBound(f, 0);
  }
}
