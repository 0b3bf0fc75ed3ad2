/** The branch for a migration that a store node refuses: the data stays where it is, but the directory is
    edited all the same, by whatever bounds the two replies carry. */
module Aborted {
  import opened Bytes
  import opened Tables
  import opened HandleBuff
  import opened Records
  import opened StoreSpec
  import opened Wire
  import opened Balance
  import opened Clusters
  import opened ClusterLaws
  import opened Refinement

  /** A reply carries the smallest key it would have announced for the operation, or none. */
  predicate Replied(lo: Bytes, t: Table<Bytes>, r: Log) {
    lo == [] || lo == Predict(t, r).0
  }

  /** An entry just stored under k is the one k is routed to. */
  lemma PutFloor<V>(t: Table<V>, k: Bytes, v: V)
    requires Sorted(t)
    ensures Put(t, k, v) != [] && Put(t, k, v)[Floor(Put(t, k, v), k)] == Entry(k, v)
  {
    hide Less;
    var r, p := Put(t, k, v), Seek(t, k);
    assert r[p] == Entry(k, v);
    FloorUnique(r, k, p);
  }

  lemma RewriteBetween(dir: Directory, f: nat, m: Meta)
    requires Sorted(dir) && f < |dir|
    requires f > 0 ==> Less(dir[f - 1].key, m.min)
    requires f + 1 < |dir| ==> Less(m.min, dir[f + 1].key)
    ensures Rewrite(dir, dir[f], m) == dir[f := Entry(m.min, m)] && Sorted(dir[f := Entry(m.min, m)])
  {
    hide Less, Put, Delete;
    var a, b := dir[..f], dir[f + 1..];
    forall x | 0 <= x < |a|
      ensures Less(a[x].key, m.min)
    {
      if x < f - 1 {
        LessTransitive(a[x].key, dir[f - 1].key, m.min);
      }
    }
    forall x | 0 <= x < |b|
      ensures Less(m.min, b[x].key)
    {
      if x > 0 {
        LessTransitive(m.min, dir[f + 1].key, b[x].key);
      }
    }
    ReplaceInPlace(dir, f, m.min, m);
  }

  /** Where the source's range starts once its entry is edited. */
  lemma SourceStart(c: Cluster, i: nat, fwd: bool, lo: Bytes, hi: Bytes)
    requires Inv(c) && Neighboured(c.nodes, i, fwd) && |c.nodes[i]| >= 2
    requires Replied(lo, c.nodes[i], Log(DELETE, BoundaryEntry(c.nodes[i], fwd).key, []))
    ensures |c.dir| == |c.nodes|
    ensures var o, k := c.dir[i].value, BoundaryEntry(c.nodes[i], fwd).key;
            var a := Narrow(o, lo, hi).min;
            && Leq(o.min, a) && Leq(a, o.max)
            && (if fwd || lo == [] then Leq(a, k) else Less(k, a))
  {
    hide Less, Predict;
    var t := c.nodes[i];
    assert Holds(t, c.dir[i].value) && Announces(c.dir[i], i);
    SourceData(t, fwd);
    assert Less(t[0].key, t[|t| - 1].key);
  }

  lemma TargetStart(c: Cluster, i: nat, fwd: bool, lo: Bytes, hi: Bytes)
    requires Inv(c) && Neighboured(c.nodes, i, fwd) && |c.nodes[i]| >= 2
    requires var e := BoundaryEntry(c.nodes[i], fwd);
             Replied(lo, c.nodes[Neighbour(i, fwd)], Log(PUT, e.key, e.value)) && lo != e.key
    ensures |c.dir| == |c.nodes|
    ensures var o := c.dir[Neighbour(i, fwd)].value;
            var b := Narrow(o, lo, hi).min;
            Leq(o.min, b) && Leq(b, o.max) && (fwd ==> b == o.min)
  {
    hide Less;
    var e, j := BoundaryEntry(c.nodes[i], fwd), Neighbour(i, fwd);
    var t := c.nodes[j];
    assert Holds(t, c.dir[j].value) && Announces(c.dir[j], j);
    BoundaryKey(c, i, fwd);
    RouteSplits(c, e.key);
    if t != [] && fwd {
      assert Less(e.key, t[0].key);
      LessAsymmetric(e.key, t[0].key);
    }
  }

  /** Unless the neighbour's entry comes to start at the moving key itself, both entries stay in place. */
  lemma EditsInPlace(c: Cluster, i: nat, fwd: bool, lo1: Bytes, hi1: Bytes, lo2: Bytes, hi2: Bytes)
    requires Inv(c) && Neighboured(c.nodes, i, fwd) && |c.nodes[i]| >= 2
    requires var e := BoundaryEntry(c.nodes[i], fwd);
             && Replied(lo1, c.nodes[i], Log(DELETE, e.key, []))
             && Replied(lo2, c.nodes[Neighbour(i, fwd)], Log(PUT, e.key, e.value)) && lo2 != e.key
    ensures |c.dir| == |c.nodes|
    ensures var j, k := Neighbour(i, fwd), BoundaryEntry(c.nodes[i], fwd).key;
            var m1, m2 := Narrow(c.dir[i].value, lo1, hi1), Narrow(c.dir[j].value, lo2, hi2);
            var d := MoveBoundary(c.dir, k, fwd, lo1, hi1, lo2, hi2);
            d == c.dir[i := Entry(m1.min, m1)][j := Entry(m2.min, m2)] && Sorted(d)
  {
    hide Less, Predict, Rewrite, Sorted, Holds;
    var j, k := Neighbour(i, fwd), BoundaryEntry(c.nodes[i], fwd).key;
    var m1, m2 := Narrow(c.dir[i].value, lo1, hi1), Narrow(c.dir[j].value, lo2, hi2);
    DirectorySorted(c);
    BoundaryKey(c, i, fwd);
    SourceStart(c, i, fwd, lo1, hi1);
    TargetStart(c, i, fwd, lo2, hi2);
    InNodeOrder(c, i, m1.min);
    RewriteBetween(c.dir, i, m1);
    InNodeOrder(c, j, m2.min);
    if fwd {
      LeqLess(m1.min, c.dir[i].value.max, c.dir[j].value.min);
    } else {
      assert Announces(c.dir[i], i);
      LeqLess(m2.min, c.dir[j].value.max, c.dir[i].value.min);
      LeqLess(m2.min, c.dir[i].value.min, m1.min);
    }
    RewriteBetween(c.dir[i := Entry(m1.min, m1)], j, m2);
  }

  /** A key within the range of node f lies between the keys of the entries next to it. */
  lemma InNodeOrder(c: Cluster, f: nat, k: Bytes)
    requires Inv(c) && f < |c.dir| && Leq(c.dir[f].value.min, k) && Leq(k, c.dir[f].value.max)
    ensures f > 0 ==> Less(c.dir[f - 1].key, k)
    ensures f + 1 < |c.dir| ==> Less(k, c.dir[f + 1].key)
  {
    hide Less, Holds;
    if f > 0 {
      assert Announces(c.dir[f - 1], f - 1);
      LeqLess(c.dir[f - 1].value.min, c.dir[f - 1].value.max, c.dir[f].value.min);
      LeqLess(c.dir[f - 1].value.min, c.dir[f].value.min, k);
    }
    if f + 1 < |c.dir| {
      assert Announces(c.dir[f + 1], f + 1);
      LeqLess(k, c.dir[f].value.max, c.dir[f + 1].value.min);
    }
  }

  /** After an abort the key that did not move is still read if and only if neither reply lets the directory
      send it to the neighbour: the neighbour's range must not come to start at the key itself, and in the
      backward direction the source's must not come to start behind it. Otherwise it reads as absent. */
  lemma AbortReadIff(c: Cluster, i: nat, fwd: bool, lo1: Bytes, hi1: Bytes, lo2: Bytes, hi2: Bytes)
    requires Inv(c) && Neighboured(c.nodes, i, fwd) && |c.nodes[i]| >= 2
    requires var e := BoundaryEntry(c.nodes[i], fwd);
             && Replied(lo1, c.nodes[i], Log(DELETE, e.key, []))
             && Replied(lo2, c.nodes[Neighbour(i, fwd)], Log(PUT, e.key, e.value))
    ensures var e := BoundaryEntry(c.nodes[i], fwd);
            var d := Cluster(MoveBoundary(c.dir, e.key, fwd, lo1, hi1, lo2, hi2), c.nodes);
            && Find(Flatten(d.nodes), e.key) == Some(e.value) && Routable(d, e.key)
            && (GetStep(d, e.key) == e.value <==> lo2 != e.key && (fwd || lo1 == []))
            && (GetStep(d, e.key) == e.value || GetStep(d, e.key) == [])
  {
    hide Less, MoveBoundary, Predict, Inv, Sorted;
    var e, j := BoundaryEntry(c.nodes[i], fwd), Neighbour(i, fwd);
    var d := MoveBoundary(c.dir, e.key, fwd, lo1, hi1, lo2, hi2);
    BoundaryRead(c, i, fwd);
    if lo2 == e.key {
      StartsAtKey(c, i, fwd, lo1, hi1, hi2);
    } else {
      EditsInPlace(c, i, fwd, lo1, hi1, lo2, hi2);
      SourceStart(c, i, fwd, lo1, hi1);
      TargetStart(c, i, fwd, lo2, hi2);
      if fwd || lo1 == [] {
        FloorUnique(d, e.key, i);
      } else {
        LeqLess(d[j].key, c.dir[j].value.max, e.key);
        FloorUnique(d, e.key, j);
      }
    }
  }

  /** Two replies that carry no bounds at all leave the directory as it was. */
  lemma NoBoundsNoChange(c: Cluster, i: nat, fwd: bool)
    requires Inv(c) && Neighboured(c.nodes, i, fwd) && |c.nodes[i]| >= 2
    ensures MoveBoundary(c.dir, BoundaryEntry(c.nodes[i], fwd).key, fwd, [], [], [], []) == c.dir
  {
    hide Less, MoveBoundary, Predict, Sorted, Holds;
    var j := Neighbour(i, fwd);
    BoundaryRead(c, i, fwd);
    EditsInPlace(c, i, fwd, [], [], [], []);
    assert Announces(c.dir[i], i) && Announces(c.dir[j], j);
    assert Entry(c.dir[i].value.min, c.dir[i].value) == c.dir[i];
    assert Entry(c.dir[j].value.min, c.dir[j].value) == c.dir[j];
  }

  /** So if both replies carry the announced bounds, the key is lost. */
  lemma AbortLosesKey(c: Cluster, i: nat, fwd: bool)
    requires Inv(c) && Neighboured(c.nodes, i, fwd) && |c.nodes[i]| >= 2
    ensures var e, d := BoundaryEntry(c.nodes[i], fwd), Cluster(Migrate(c, i, fwd).dir, c.nodes);
            && Find(Flatten(d.nodes), e.key) == Some(e.value)
            && Routable(d, e.key) && GetStep(d, e.key) == []
  {
    hide Less, MoveBoundary, Predict, Inv, Put, Delete, Flatten, Floor;
    var e, j := BoundaryEntry(c.nodes[i], fwd), Neighbour(i, fwd);
    var (lo1, hi1) := Predict(c.nodes[i], Log(DELETE, e.key, []));
    var (lo2, hi2) := Predict(c.nodes[j], Log(PUT, e.key, e.value));
    AnnouncedStarts(c, i, fwd);
    BoundaryRead(c, i, fwd);
    AbortReadIff(c, i, fwd, lo1, hi1, lo2, hi2);
  }

  lemma AnnouncedStarts(c: Cluster, i: nat, fwd: bool)
    requires Inv(c) && Neighboured(c.nodes, i, fwd) && |c.nodes[i]| >= 2
    ensures var e, j := BoundaryEntry(c.nodes[i], fwd), Neighbour(i, fwd);
            && Predict(c.nodes[i], Log(DELETE, e.key, [])).0 != []
            && (fwd ==> Predict(c.nodes[j], Log(PUT, e.key, e.value)).0 == e.key)
  {
    hide Less;
    var t, u, k := c.nodes[i], c.nodes[Neighbour(i, fwd)], BoundaryEntry(c.nodes[i], fwd).key;
    assert Holds(t, c.dir[i].value);
    SourceData(t, fwd);
    ExactRangeHolds(Rest(t, fwd), i);
    BoundaryKey(c, i, fwd);
    RouteSplits(c, k);
    if fwd && u != [] {
      LessAsymmetric(k, u[0].key);
    }
  }

  /** An empty neighbour's announcement alone loses the key too, in either direction. */
  lemma EmptyNeighbourLosesKey(c: Cluster, i: nat, fwd: bool, hi1: Bytes)
    requires Inv(c) && Neighboured(c.nodes, i, fwd) && |c.nodes[i]| >= 2 && c.nodes[Neighbour(i, fwd)] == []
    ensures var e := BoundaryEntry(c.nodes[i], fwd);
            var (lo2, hi2) := Predict(c.nodes[Neighbour(i, fwd)], Log(PUT, e.key, e.value));
            var d := Cluster(MoveBoundary(c.dir, e.key, fwd, [], hi1, lo2, hi2), c.nodes);
            Routable(d, e.key) && GetStep(d, e.key) == []
  {
    hide Less, MoveBoundary;
    var e := BoundaryEntry(c.nodes[i], fwd);
    BoundaryRead(c, i, fwd);
    AbortReadIff(c, i, fwd, [], hi1, e.key, e.key);
  }

  /** Before the edits: the boundary key is read from node i, and node j does not hold it. */
  lemma BoundaryRead(c: Cluster, i: nat, fwd: bool)
    requires Inv(c) && Neighboured(c.nodes, i, fwd) && |c.nodes[i]| >= 2
    ensures |c.dir| == |c.nodes|
    ensures var e, j := BoundaryEntry(c.nodes[i], fwd), Neighbour(i, fwd);
            && e.value != [] && e.key != [] && Floor(c.dir, e.key) == i
            && Find(Flatten(c.nodes), e.key) == Some(e.value)
            && GetData(c.nodes[i], e.key) == e.value && GetData(c.nodes[j], e.key) == []
            && c.dir[i].value.fd == i && c.dir[j].value.fd == j
            && c.dir[j].key == c.dir[j].value.min
            && (forall x :: 0 <= x < i ==> Less(c.dir[x].value.max, e.key))
            && (forall x :: i < x < |c.dir| ==> Less(e.key, c.dir[x].key) && Less(e.key, c.dir[x].value.min))
  {
    hide Less;
    var e, j := BoundaryEntry(c.nodes[i], fwd), Neighbour(i, fwd);
    assert Holds(c.nodes[i], c.dir[i].value);
    assert Announces(c.dir[j], j);
    FindExact(c.nodes[i], e.key, e.value);
    BoundaryKey(c, i, fwd);
    RoutedIsGlobal(c, e.key, []);
    RouteSplits(c, e.key);
    NotFound(c.nodes[j], e.key);
    forall x | i < x < |c.dir|
      ensures Less(e.key, c.dir[x].key)
    {
      assert Announces(c.dir[x], x);
    }
  }

  lemma StartsAtKey(c: Cluster, i: nat, fwd: bool, lo1: Bytes, hi1: Bytes, hi2: Bytes)
    requires Inv(c) && Neighboured(c.nodes, i, fwd) && |c.nodes[i]| >= 2
    ensures var k, j := BoundaryEntry(c.nodes[i], fwd).key, Neighbour(i, fwd);
            var d := MoveBoundary(c.dir, k, fwd, lo1, hi1, k, hi2);
            d != [] && d[Floor(d, k)].value.fd == j
  {
    hide Less, Put, Delete, Sorted;
    var k, j := BoundaryEntry(c.nodes[i], fwd).key, Neighbour(i, fwd);
    BoundaryRead(c, i, fwd);
    DirectorySorted(c);
    var m1, m2 := Narrow(c.dir[i].value, lo1, hi1), Narrow(c.dir[j].value, k, hi2);
    PutFloor(Delete(Rewrite(c.dir, c.dir[i], m1), c.dir[j].key), k, m2);
  }

  lemma NotFound(t: Table<Bytes>, k: Bytes)
    requires AllBelow(t, k) || AllAbove(t, k)
    ensures GetData(t, k) == []
  {
    LessIrreflexive(k);
  }
}
