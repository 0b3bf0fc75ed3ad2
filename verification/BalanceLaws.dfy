/** What one call of re_balance achieves, and what it costs. */
module BalanceLaws {
  import opened Bytes
  import opened Tables
  import opened Balance

  ghost predicate Fine(s: Shards, lo: nat, hi: nat, q: Quota)
    requires hi <= |s|
  {
    forall j :: lo <= j < hi ==> NotTooMuch(s[j], q)
  }

  /** Nodes lo.. cannot take one more entry from the node before them. */
  ghost predicate Tight(s: Shards, lo: nat, q: Quota)
    requires lo > 0
  {
    forall j :: lo <= j < |s| ==> Full(s, j, q)
  }

  ghost predicate Full(s: Shards, j: nat, q: Quota)
    requires 0 < j < |s|
  {
    s[j - 1] != [] && !NotTooMuch([s[j - 1][|s[j - 1]| - 1]] + s[j], q)
  }

  // ---------- the sequence of entries is kept

  lemma {:induction false} DrainKeepsSequence(s: Shards, i: nat, fwd: bool, q: Quota)
    requires Neighboured(s, i, fwd)
    ensures Flatten(Drain(s, i, fwd, q)) == Flatten(s)
    decreases |s[i]|
  {
    if !NotTooMuch(s[i], q) {
      ShiftKeepsSequence(s, i, fwd);
      DrainKeepsSequence(Shift(s, i, fwd), i, fwd, q);
    }
  }

  lemma {:induction false} ForwardKeepsSequence(s: Shards, i: nat, q: Quota)
    ensures Flatten(Forward(s, i, q)) == Flatten(s)
    decreases |s| - i
  {
    if i + 1 < |s| {
      DrainKeepsSequence(s, i, true, q);
      ForwardKeepsSequence(Drain(s, i, true, q), i + 1, q);
    }
  }

  lemma {:induction false} BackwardKeepsSequence(s: Shards, i: nat, q: Quota)
    requires i < |s|
    ensures Flatten(Backward(s, i, q)) == Flatten(s)
    decreases i
  {
    if i > 0 {
      DrainKeepsSequence(s, i, false, q);
      BackwardKeepsSequence(Drain(s, i, false, q), i - 1, q);
    }
  }

  /** re_balance only moves cut points: the nodes' data, read in node order, is the same sequence of
      entries before and after, so the total size it computed once stays the true one. */
  lemma SettleKeepsSequence(s: Shards)
    requires s != []
    ensures Flatten(Settle(s)) == Flatten(s)
    ensures Total(Settle(s)) == Total(s)
  {
    var q := QuotaOf(s);
    ForwardKeepsSequence(s, 0, q);
    BackwardKeepsSequence(Forward(s, 0, q), |s| - 1, q);
    TotalIsWeight(s);
    TotalIsWeight(Settle(s));
  }

  // ---------- the state after each pass

  /** After the forward pass every node but the last is within the limit. */
  lemma {:induction false} ForwardFine(s: Shards, i: nat, q: Quota)
    requires i < |s| && Fine(s, 0, i, q)
    ensures Fine(Forward(s, i, q), 0, |s| - 1, q)
    decreases |s| - i
  {
    if i + 1 < |s| {
      var _ := DrainShape(s, i, true, q);
      ForwardFine(Drain(s, i, true, q), i + 1, q);
    }
  }

  /** A pass over nodes that are all within the limit changes nothing. */
  lemma {:induction false} ForwardIdle(s: Shards, i: nat, q: Quota)
    requires i < |s| && Fine(s, i, |s| - 1, q)
    ensures Forward(s, i, q) == s
    decreases |s| - i
  {
    if i + 1 < |s| {
      ForwardIdle(s, i + 1, q);
    }
  }

  lemma {:induction false} BackwardIdle(s: Shards, i: nat, q: Quota)
    requires i < |s| && Fine(s, 1, i + 1, q)
    ensures Backward(s, i, q) == s
    decreases i
  {
    if i > 0 {
      BackwardIdle(s, i - 1, q);
    }
  }

  /** The state in which the backward pass, now at node i, comes to node k. */
  function Reached(s: Shards, i: nat, k: nat, q: Quota): (r: Shards)
    requires k <= i < |s|
    ensures |r| == |s|
    decreases i
  {
    if i == k then s else Reached(Drain(s, i, false, q), i - 1, k, q)
  }

  /** The nodes the pass has not come to, and those it has left, are within the limit; from node k on it
      goes on as it would have started there. */
  lemma {:induction false} ReachedFine(s: Shards, i: nat, k: nat, q: Quota)
    requires k <= i < |s| && Fine(s, 0, i, q) && Fine(s, i + 1, |s|, q)
    ensures var r := Reached(s, i, k, q);
            Fine(r, 0, k, q) && Fine(r, k + 1, |s|, q) && Backward(r, k, q) == Backward(s, i, q)
    decreases i
  {
    if k < i {
      var _ := DrainShape(s, i, false, q);
      ReachedFine(Drain(s, i, false, q), i - 1, k, q);
    }
  }

  /** Once a node pushes nothing in the backward pass, no lower node pushes or changes: if node k is within
      the limit when the pass comes to it, the pass ends in that very state, with every node within it. */
  lemma BackwardCascade(s: Shards, k: nat, q: Quota)
    requires k < |s|
    requires NotTooMuch(Reached(Forward(s, 0, q), |s| - 1, k, q)[k], q)
    ensures var f := Forward(s, 0, q);
            Backward(f, |s| - 1, q) == Reached(f, |s| - 1, k, q) && Fine(Backward(f, |s| - 1, q), 0, |s|, q)
  {
    var f := Forward(s, 0, q);
    ForwardFine(s, 0, q);
    ReachedFine(f, |s| - 1, k, q);
    BackwardIdle(Reached(f, |s| - 1, k, q), k, q);
  }

  /** So if the last node is within the limit after the forward pass, the backward pass is a no-op. */
  lemma BackwardPassIdle(s: Shards, q: Quota)
    requires s != [] && NotTooMuch(Forward(s, 0, q)[|s| - 1], q)
    ensures Backward(Forward(s, 0, q), |s| - 1, q) == Forward(s, 0, q)
    ensures Fine(Forward(s, 0, q), 0, |s|, q)
  {
    BackwardCascade(s, |s| - 1, q);
  }

  /** The backward pass either stops early with everything within the limit, or reaches node 0 and then
      leaves every other node filled to the brim. */
  lemma {:induction false} BackwardOutcome(s: Shards, i: nat, q: Quota)
    requires i < |s| && Fine(s, 0, i, q) && Fine(s, i + 1, |s|, q)
    requires NotTooMuch(s[i], q) || Tight(s, i + 1, q)
    ensures var r := Backward(s, i, q);
            Fine(r, 1, |s|, q) && (NotTooMuch(r[0], q) || Tight(r, 1, q))
    decreases i
  {
    if i > 0 {
      if NotTooMuch(s[i], q) {
        BackwardIdle(s, i, q);
      } else {
        var moved := DrainShape(s, i, false, q);
        var r := Drain(s, i, false, q);
        assert r[i - 1][|r[i - 1]| - 1] == moved[|moved| - 1];
        assert s[i][|s[i]| - 1] == r[i][|r[i]| - 1];
        forall j | i <= j < |r|
          ensures Full(r, j, q)
        {
          if i < j {
            assert Full(s, j, q);
          }
        }
        BackwardOutcome(r, i - 1, q);
      }
    }
  }

  /** Whatever the quota, the two passes leave nodes 1.. within the limit, and node 0 too unless every
      other node is full. */
  lemma PassesOutcome(s: Shards, q: Quota)
    requires s != []
    ensures var r := Backward(Forward(s, 0, q), |s| - 1, q);
            Fine(r, 1, |r|, q) && (NotTooMuch(r[0], q) || Tight(r, 1, q))
  {
    ForwardFine(s, 0, q);
    BackwardOutcome(Forward(s, 0, q), |s| - 1, q);
  }

  /** Nodes 1.. always end within the limit; node 0 does too unless every other node is full. */
  lemma SettleOutcome(s: Shards)
    requires s != []
    ensures var q, r := QuotaOf(s), Settle(s);
            Fine(r, 1, |s|, q) && (NotTooMuch(r[0], q) || Tight(r, 1, q))
  {
    PassesOutcome(s, QuotaOf(s));
  }

  // ---------- when everything can be balanced

  /** A way of cutting the same sequence of entries among the same number of nodes, in order. */
  ghost predicate Recut(s: Shards, cut: Shards) {
    |cut| == |s| && Flatten(cut) == Flatten(s)
  }

  lemma FlattenLast(s: Shards)
    requires s != []
    ensures Flatten(s) == Flatten(s[..|s| - 1]) + s[|s| - 1]
  {
    FlattenAround(s, |s| - 1);
    assert Flatten(s[|s|..]) == [];
  }

  lemma TightPrefix(r: Shards, n: nat, q: Quota)
    requires n <= |r| && Tight(r, 1, q)
    ensures Tight(r[..n], 1, q)
  {
    forall j | 1 <= j < n
      ensures Full(r[..n], j, q)
    {
      assert Full(r, j, q);
    }
  }

  /** If x + a == y + b, the longer of a and b ends in the shorter. */
  lemma SuffixOf<T>(x: seq<T>, a: seq<T>, y: seq<T>, b: seq<T>)
    requires x + a == y + b && |a| <= |b|
    ensures |y| <= |x| && b == b[..|b| - |a|] + a && y + b[..|b| - |a|] == x
  {
    var k := |b| - |a|;
    assert (x + a)[|x|..] == a && (y + b)[|x|..] == b[k..];
    assert (x + a)[..|x|] == x && (y + b)[..|x|] == y + b[..k];
  }

  /** A part that holds node n of a full row and reaches back into the node before it is too much. */
  lemma Overfull(r: Shards, n: nat, y: Table<Bytes>, surplus: Table<Bytes>, extra: Table<Bytes>, q: Quota)
    requires 0 < n < |r| && Tight(r, 1, q)
    requires surplus != [] && Flatten(r[..n]) == y + surplus
    ensures !NotTooMuch(surplus + (r[n] + extra), q)
  {
    var k, w := |surplus| - 1, r[n - 1];
    FlattenLast(r[..n]);
    assert r[..n][..n - 1] == r[..n - 1];
    assert Full(r, n, q);
    var e := (y + surplus)[|y| + k];
    assert e == (Flatten(r[..n - 1]) + w)[|y| + k] == w[|w| - 1];
    if NotTooMuch(surplus + (r[n] + extra), q) {
      assert surplus + (r[n] + extra) == surplus[..k] + ([e] + r[n]) + extra;
      PartNotTooMuch(surplus[..k], [e] + r[n], extra, q);
    }
  }

  /** Where every node after the first is full to the brim, no other cut of the sequence, nor of a
      longer one, fits more into them: its first part contains this first part. */
  lemma {:induction false} FullLeavesMost(r: Shards, cut: Shards, extra: Table<Bytes>, q: Quota)
    returns (more: Table<Bytes>)
    requires r != [] && |cut| == |r|
    requires Flatten(cut) == Flatten(r) + extra
    requires Tight(r, 1, q) && Fine(cut, 1, |cut|, q)
    ensures cut[0] == r[0] + more
    decreases |r|
  {
    FlattenLast(r);
    FlattenLast(cut);
    var n := |r| - 1;
    var x, y, t := Flatten(r[..n]), Flatten(cut[..n]), r[n] + extra;
    assert x + t == y + cut[n];
    if n == 0 {
      assert r[..0] == [] && cut[..0] == [];
      assert x == [] && y == [];
      more := extra;
      assert t == x + t && cut[0] == y + cut[0];
    } else {
      if |cut[n]| > |t| {
        SuffixOf(x, t, y, cut[n]);
        Overfull(r, n, y, cut[n][..|cut[n]| - |t|], extra, q);
        assert false;
      }
      SuffixOf(y, cut[n], x, t);
      TightPrefix(r, n, q);
      more := FullLeavesMost(r[..n], cut[..n], t[..|t| - |cut[n]|], q);
    }
  }

  lemma NoFineCut(r: Shards, cut: Shards, q: Quota)
    requires r != [] && Recut(r, cut) && Tight(r, 1, q) && Fine(cut, 0, |cut|, q)
    ensures NotTooMuch(r[0], q)
  {
    assert Flatten(cut) == Flatten(r) + [];
    var more := FullLeavesMost(r, cut, [], q);
    assert cut[0] == [] + r[0] + more;
    PartNotTooMuch([], r[0], more, q);
  }

  /** re_balance balances whenever that is possible at all: every node ends within the limit if and only
      if the sequence of entries can be cut into as many consecutive parts that all are. */
  lemma BalancedIffPossible(s: Shards)
    requires s != []
    ensures Fine(Settle(s), 0, |s|, QuotaOf(s)) <==> exists cut :: Recut(s, cut) && Fine(cut, 0, |cut|, QuotaOf(s))
  {
    var q, r := QuotaOf(s), Settle(s);
    SettleKeepsSequence(s);
    if Fine(r, 0, |s|, q) {
      assert Recut(s, r);
    }
    if cut :| Recut(s, cut) && Fine(cut, 0, |cut|, q) {
      SettleOutcome(s);
      if !NotTooMuch(r[0], q) {
        NoFineCut(r, cut, q);
        assert false;
      }
    }
  }

  /** No cut leaves the first node less: where node 0 ends over the limit, what it holds is the start of
      what the first part of any cut holds whose other parts are within the limit. */
  lemma FirstNodeLeast(s: Shards, cut: Shards)
    requires s != [] && Recut(s, cut) && Fine(cut, 1, |cut|, QuotaOf(s))
    requires !NotTooMuch(Settle(s)[0], QuotaOf(s))
    ensures Settle(s)[0] <= cut[0] && Weight(Settle(s)[0]) <= Weight(cut[0])
  {
    SettleKeepsSequence(s);
    SettleOutcome(s);
    assert Flatten(cut) == Flatten(Settle(s)) + [];
    var more := FullLeavesMost(Settle(s), cut, [], QuotaOf(s));
    WeightConcat(Settle(s)[0], more);
  }

  // ---------- a second call

  /** A full row whose first node is over the limit is the only such cut of its sequence. */
  lemma {:induction false} FullCutUnique(r: Shards, p: Shards, q: Quota)
    requires Recut(r, p) && r != []
    requires Tight(r, 1, q) && Tight(p, 1, q) && Fine(r, 1, |r|, q) && Fine(p, 1, |p|, q)
    ensures r == p
    decreases |r|
  {
    hide Tight;
    FlattenLast(r);
    FlattenLast(p);
    var n := |r| - 1;
    if n == 0 {
      assert r[..0] == [] && p[..0] == [];
      assert Flatten(r) == [] + r[0] == r[0] && Flatten(p) == [] + p[0] == p[0];
      assert r == [r[0]] && p == [p[0]];
    } else {
      SameLast(r, p, q);
      TightPrefix(r, n, q);
      TightPrefix(p, n, q);
      SameHead(Flatten(r[..n]), Flatten(p[..n]), r[n]);
      FullCutUnique(r[..n], p[..n], q);
      assert r == r[..n] + [r[n]] && p == p[..n] + [p[n]];
    }
  }

  lemma SameHead<T>(x: seq<T>, y: seq<T>, a: seq<T>)
    requires x + a == y + a
    ensures x == y
  {
    assert x == (x + a)[..|x|] && y == (y + a)[..|y|];
  }

  lemma SameLast(r: Shards, p: Shards, q: Quota)
    requires Recut(r, p) && |r| > 1
    requires Tight(r, 1, q) && Tight(p, 1, q) && Fine(r, 1, |r|, q) && Fine(p, 1, |p|, q)
    ensures r[|r| - 1] == p[|r| - 1]
  {
    FlattenLast(r);
    FlattenLast(p);
    var n := |r| - 1;
    if |r[n]| < |p[n]| {
      SuffixOf(Flatten(r[..n]), r[n], Flatten(p[..n]), p[n]);
      assert r[n] + [] == r[n];
      Overfull(r, n, Flatten(p[..n]), p[n][..|p[n]| - |r[n]|], [], q);
      assert false;
    } else {
      SuffixOf(Flatten(p[..n]), p[n], Flatten(r[..n]), r[n]);
      if |p[n]| < |r[n]| {
        assert p[n] + [] == p[n];
        Overfull(p, n, Flatten(r[..n]), r[n][..|r[n]| - |p[n]|], [], q);
        assert false;
      }
    }
  }

  lemma FineIsStable(s: Shards)
    requires s != [] && Fine(s, 0, |s|, QuotaOf(s))
    ensures Settle(s) == s
  {
    ForwardIdle(s, 0, QuotaOf(s));
    BackwardIdle(s, |s| - 1, QuotaOf(s));
  }

  /** A second call changes nothing: either all is within the limit and no node pushes, or the forward
      pass is undone, entry by entry, by the backward pass. */
  lemma SettleIdempotent(s: Shards)
    requires s != []
    ensures Settle(Settle(s)) == Settle(s)
  {
    var q, r := QuotaOf(s), Settle(s);
    SettleKeepsSequence(s);
    SettleOutcome(s);
    assert QuotaOf(r) == q;
    if NotTooMuch(r[0], q) {
      FineIsStable(r);
    } else {
      var p := Settle(r);
      SettleKeepsSequence(r);
      SettleOutcome(r);
      if NotTooMuch(p[0], q) {
        NoFineCut(r, p, q);
        assert false;
      }
      FullCutUnique(r, p, q);
    }
  }

  /** Not every sequence can be balanced: three entries of one weight on two nodes never are. */
  lemma ThreeOnTwo(s: Shards)
    requires |s| == 2 && |Flatten(s)| == 3
    requires EntryWeight(Flatten(s)[0]) == EntryWeight(Flatten(s)[1]) == EntryWeight(Flatten(s)[2])
    ensures !NotTooMuch(Settle(s)[0], QuotaOf(s))
  {
    hide Settle, NotTooMuch, QuotaOf, Weight;
    var r, w := Settle(s), EntryWeight(Flatten(s)[0]);
    SettleKeepsSequence(s);
    SettleOutcome(s);
    ThreeQuota(s, w);
    FlattenTwo(r);
    assert forall i :: 0 <= i < |r[0]| ==> r[0][i] == Flatten(s)[i];
    assert forall i :: 0 <= i < |r[1]| ==> r[1][i] == Flatten(s)[|r[0]| + i];
    assert NotTooMuch(r[1], QuotaOf(s));
    if |r[1]| >= 2 {
      TwoTooMany(r[1], w);
    } else {
      TwoTooMany(r[0], w);
    }
  }

  lemma FlattenTwo(r: Shards)
    requires |r| == 2
    ensures Flatten(r) == r[0] + r[1]
  {
    assert r[1..][1..] == [] && Flatten(r[1..]) == r[1] + [];
  }

  lemma ThreeQuota(s: Shards, w: nat)
    requires |s| == 2 && |Flatten(s)| == 3 && forall i :: 0 <= i < 3 ==> EntryWeight(Flatten(s)[i]) == w
    ensures QuotaOf(s) == Quota(3 * w, 1.0 / 2.0)
  {
    TotalIsWeight(s);
    EqualWeights(Flatten(s), w);
  }

  lemma TwoTooMany(t: Table<Bytes>, w: nat)
    requires 2 <= |t| <= 3 && forall i :: 0 <= i < |t| ==> EntryWeight(t[i]) == w
    ensures !NotTooMuch(t, Quota(3 * w, 1.0 / 2.0))
  {
    EqualWeights(t, w);
    TwoThirds(w, |t|);
  }

  lemma {:induction false} EqualWeights(t: Table<Bytes>, w: nat)
    requires forall i :: 0 <= i < |t| ==> EntryWeight(t[i]) == w
    ensures Weight(t) == |t| * w
  {
    if t != [] {
      EqualWeights(t[1..], w);
      assert |t| * w == w + (|t| - 1) * w;
    }
  }

  lemma TwoThirds(w: nat, k: nat)
    requires w >= 2 && 2 <= k <= 3
    ensures !WithinShare(k * w, Quota(3 * w, 1.0 / 2.0))
  {
    LimitForm(k * w, Quota(3 * w, 1.0 / 2.0));
  }
}
