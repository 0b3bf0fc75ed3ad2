/** re_balance seen at the nodes' data alone. Every migration moves one boundary entry to the
    neighbour, so the passes only shift the cut points of one sorted sequence. */
module Balance {
  import opened Bytes
  import opened Tables

  /** The data of the nodes, in node order. */
  type Shards = seq<Table<Bytes>>

  function Flatten(s: Shards): Table<Bytes> {
    if s == [] then [] else s[0] + Flatten(s[1..])
  }

  function Total(s: Shards): nat {
    if s == [] then 0 else Weight(s[0]) + Total(s[1..])
  }

  /** What re_balance computes once, before its passes: the total size and the share of one node. */
  datatype Quota = Quota(total: nat, perfect: real)

  function QuotaOf(s: Shards): Quota
    requires s != []
  {
    Quota(Total(s), 1.0 / |s| as real)
  }

  /** The program's test, with its two tolerances, over reals. */
  predicate NotTooMuch(t: Table<Bytes>, q: Quota) {
    WithinShare(Weight(t), q) || |t| <= 1
  }

  predicate WithinShare(size: int, q: Quota) {
    size as real / (q.total as real + 0.000001) <= q.perfect + 0.01
  }

  function Limit(q: Quota): real {
    (q.perfect + 0.01) * (q.total as real + 0.000001)
  }

  lemma LimitForm(size: int, q: Quota)
    ensures WithinShare(size, q) <==> size as real <= Limit(q)
  {
    DivideByPositive(size as real, q.total as real + 0.000001, q.perfect + 0.01);
  }

  lemma DivideByPositive(w: real, d: real, p: real)
    requires d > 0.0
    ensures w / d <= p <==> w <= p * d
  {
    assert w / d * d == w;
    if w / d <= p {
      assert (p - w / d) * d >= 0.0;
    } else {
      assert (w / d - p) * d > 0.0;
    }
  }

  /** A part of a run that is within the limit is within the limit. */
  lemma PartNotTooMuch(a: Table<Bytes>, t: Table<Bytes>, b: Table<Bytes>, q: Quota)
    requires NotTooMuch(a + t + b, q)
    ensures NotTooMuch(t, q)
  {
    WeightConcat(a + t, b);
    WeightConcat(a, t);
    LimitForm(Weight(a + t + b), q);
    LimitForm(Weight(t), q);
  }

  // ---------- one migration

  predicate Neighboured(s: Shards, i: nat, fwd: bool) {
    i < |s| && (if fwd then i + 1 < |s| else 0 < i)
  }

  function Shift(s: Shards, i: nat, fwd: bool): (r: Shards)
    requires Neighboured(s, i, fwd) && s[i] != []
    ensures |r| == |s|
  {
    var t := s[i];
    if fwd then s[i := t[..|t| - 1]][i + 1 := [t[|t| - 1]] + s[i + 1]]
    else s[i := t[1..]][i - 1 := s[i - 1] + [t[0]]]
  }

  lemma {:induction false} FlattenConcat(a: Shards, b: Shards)
    ensures Flatten(a + b) == Flatten(a) + Flatten(b)
  {
    if a == [] {
      assert a + b == b;
    } else {
      assert (a + b)[1..] == a[1..] + b;
      FlattenConcat(a[1..], b);
    }
  }

  lemma FlattenAround(s: Shards, i: nat)
    requires i < |s|
    ensures Flatten(s) == Flatten(s[..i]) + s[i] + Flatten(s[i + 1..])
  {
    assert s == s[..i] + s[i..];
    FlattenConcat(s[..i], s[i..]);
    assert s[i..][1..] == s[i + 1..];
  }

  lemma FlattenPair(s: Shards, i: nat)
    requires i + 1 < |s|
    ensures Flatten(s) == Flatten(s[..i]) + (s[i] + s[i + 1]) + Flatten(s[i + 2..])
  {
    FlattenAround(s, i);
    assert s[i + 1..][1..] == s[i + 2..];
    Associate(Flatten(s[..i]), s[i], s[i + 1], Flatten(s[i + 2..]));
  }

  lemma Associate<T>(a: seq<T>, x: seq<T>, y: seq<T>, b: seq<T>)
    ensures a + x + (y + b) == a + (x + y) + b
  {
  }

  lemma FlattenRepair(s: Shards, r: Shards, i: nat)
    requires i + 1 < |s| == |r| && s[i] + s[i + 1] == r[i] + r[i + 1]
    requires s[..i] == r[..i] && s[i + 2..] == r[i + 2..]
    ensures Flatten(s) == Flatten(r)
  {
    FlattenPair(s, i);
    FlattenPair(r, i);
  }

  /** A migration leaves the sequence of all entries, in node order, as it was. */
  lemma ShiftKeepsSequence(s: Shards, i: nat, fwd: bool)
    requires Neighboured(s, i, fwd) && s[i] != []
    ensures Flatten(Shift(s, i, fwd)) == Flatten(s)
  {
    FlattenRepair(s, Shift(s, i, fwd), if fwd then i else i - 1);
  }

  lemma {:induction false} TotalIsWeight(s: Shards)
    ensures Total(s) == Weight(Flatten(s))
  {
    if s != [] {
      TotalIsWeight(s[1..]);
      WeightConcat(s[0], Flatten(s[1..]));
    }
  }

  function BoundaryEntry(t: Table<Bytes>, fwd: bool): Entry<Bytes>
    requires t != []
  {
    if fwd then t[|t| - 1] else t[0]
  }

  function Neighbour(i: int, fwd: bool): int {
    if fwd then i + 1 else i - 1
  }

  /** A migration takes from one node's size exactly what it adds to its neighbour's, so the total that
      re_balance computed once is still the sum of the sizes at every check of its loops. */
  lemma ShiftConserves(s: Shards, i: nat, fwd: bool)
    requires Neighboured(s, i, fwd) && s[i] != []
    ensures var r, j, e := Shift(s, i, fwd), Neighbour(i, fwd), BoundaryEntry(s[i], fwd);
            && Weight(r[i]) == Weight(s[i]) - EntryWeight(e)
            && Weight(r[j]) == Weight(s[j]) + EntryWeight(e)
            && Total(r) == Total(s)
  {
    var t, r, e, j := s[i], Shift(s, i, fwd), BoundaryEntry(s[i], fwd), Neighbour(i, fwd);
    WeightOne(e);
    if fwd {
      assert t == r[i] + [e];
      WeightConcat(r[i], [e]);
      WeightConcat([e], s[j]);
    } else {
      assert t == [e] + r[i];
      WeightConcat([e], r[i]);
      WeightConcat(s[j], [e]);
    }
    ShiftKeepsSequence(s, i, fwd);
    TotalIsWeight(s);
    TotalIsWeight(r);
  }

  // ---------- the passes

  /** The inner while loop on node i. */
  function Drain(s: Shards, i: nat, fwd: bool, q: Quota): (r: Shards)
    requires Neighboured(s, i, fwd)
    ensures |r| == |s|
    decreases |s[i]|
  {
    if NotTooMuch(s[i], q) then s else Drain(Shift(s, i, fwd), i, fwd, q)
  }

  function Forward(s: Shards, i: nat, q: Quota): (r: Shards)
    ensures |r| == |s|
    decreases |s| - i
  {
    if i + 1 >= |s| then s else Forward(Drain(s, i, true, q), i + 1, q)
  }

  function Backward(s: Shards, i: nat, q: Quota): (r: Shards)
    requires i < |s|
    ensures |r| == |s|
    decreases i
  {
    if i == 0 then s else Backward(Drain(s, i, false, q), i - 1, q)
  }

  function Settle(s: Shards): (r: Shards)
    requires s != []
    ensures |r| == |s|
  {
    var q := QuotaOf(s);
    Backward(Forward(s, 0, q), |s| - 1, q)
  }

  /** r is s after node i has handed the block `moved` to its neighbour. */
  ghost predicate Handed(s: Shards, r: Shards, i: nat, fwd: bool, moved: Table<Bytes>)
    requires Neighboured(s, i, fwd) && |r| == |s|
  {
    if fwd then s[i] == r[i] + moved && r == s[i := r[i]][i + 1 := moved + s[i + 1]]
    else s[i] == moved + r[i] && r == s[i := r[i]][i - 1 := s[i - 1] + moved]
  }

  lemma HandedNothing(s: Shards, i: nat, fwd: bool)
    requires Neighboured(s, i, fwd)
    ensures Handed(s, s, i, fwd, [])
  {
    assert s[i] == s[i] + [] == [] + s[i];
    if fwd {
      assert [] + s[i + 1] == s[i + 1];
    } else {
      assert s[i - 1] + [] == s[i - 1];
    }
  }

  lemma HandedForward(s: Shards, r: Shards, i: nat, m: Table<Bytes>)
    requires Neighboured(s, i, true) && |r| == |s| && s[i] != []
    requires Handed(Shift(s, i, true), r, i, true, m)
    ensures Handed(s, r, i, true, m + [s[i][|s[i]| - 1]])
  {
    var t := s[i];
    var k := |t| - 1;
    var e := [t[k]];
    assert t == t[..k] + e;
    assert t == r[i] + (m + e);
    assert m + (e + s[i + 1]) == (m + e) + s[i + 1];
  }

  lemma HandedBackward(s: Shards, r: Shards, i: nat, m: Table<Bytes>)
    requires Neighboured(s, i, false) && |r| == |s| && s[i] != []
    requires Handed(Shift(s, i, false), r, i, false, m)
    ensures Handed(s, r, i, false, [s[i][0]] + m)
  {
    var t := s[i];
    var e := [t[0]];
    assert t == e + t[1..];
    assert t == (e + m) + r[i];
    assert (s[i - 1] + e) + m == s[i - 1] + (e + m);
  }

  /** One more entry of what was handed over would have been too much. */
  ghost predicate Brim(kept: Table<Bytes>, fwd: bool, moved: Table<Bytes>, q: Quota) {
    moved != [] ==> !NotTooMuch(if fwd then kept + [moved[0]] else [moved[|moved| - 1]] + kept, q)
  }

  /** A drained node keeps one end of what it had, hands the rest over in one block, stops as soon as it
      is within the limit and so never gives away its last entry. */
  lemma {:induction false} DrainShape(s: Shards, i: nat, fwd: bool, q: Quota) returns (moved: Table<Bytes>)
    requires Neighboured(s, i, fwd)
    ensures var r := Drain(s, i, fwd, q);
            && NotTooMuch(r[i], q) && (s[i] != [] ==> r[i] != [])
            && Handed(s, r, i, fwd, moved) && Brim(r[i], fwd, moved, q)
            && (moved == [] <==> NotTooMuch(s[i], q))
    decreases |s[i]|
  {
    if NotTooMuch(s[i], q) {
      moved := [];
      HandedNothing(s, i, fwd);
    } else {
      var m := DrainShape(Shift(s, i, fwd), i, fwd, q);
      var r, t := Drain(s, i, fwd, q), s[i];
      if fwd {
        moved := m + [t[|t| - 1]];
        HandedForward(s, r, i, m);
        assert m == [] ==> r[i] + [moved[0]] == t;
      } else {
        moved := [t[0]] + m;
        HandedBackward(s, r, i, m);
        assert m == [] ==> [moved[|moved| - 1]] + r[i] == t;
      }
    }
  }
}
