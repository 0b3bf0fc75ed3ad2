/** The directory and the nodes stay in step through every command and every migration. */
module ClusterLaws {
  import opened Bytes
  import opened Tables
  import opened HandleBuff
  import opened Records
  import opened StoreSpec
  import opened Wire
  import opened Balance
  import opened Clusters

  // ---------- routing

  /** A key is routed to the one node that may hold it: all lower nodes lie below it, all higher above. */
  lemma RouteSplits(c: Cluster, k: Bytes)
    requires Inv(c)
    ensures var f := Floor(c.dir, k);
            && Routable(c, k) && f < |c.nodes| && c.dir[f].value.fd == f
            && (forall i :: 0 <= i < f ==> Less(c.dir[i].value.max, k) && AllBelow(c.nodes[i], k))
            && (forall i :: f < i < |c.nodes| ==> Less(k, c.dir[i].value.min) && AllAbove(c.nodes[i], k))
            && (Leq(c.dir[f].value.min, k) || (f == 0 && Less(k, c.dir[f].value.min)))
  {
    DirectorySorted(c);
    FloorSplits(c.dir, k);
    var f := Floor(c.dir, k);
    assert Announces(c.dir[f], f);
    forall i | 0 <= i < f
      ensures Less(c.dir[i].value.max, k) && AllBelow(c.nodes[i], k)
    {
      assert Holds(c.nodes[i], c.dir[i].value);
      LeqLess(c.dir[i].value.max, c.dir[f].value.min, k);
      forall x | 0 <= x < |c.nodes[i]|
        ensures Less(c.nodes[i][x].key, k)
      {
        LeqLess(c.nodes[i][x].key, c.dir[i].value.max, k);
      }
    }
    forall i | f < i < |c.nodes|
      ensures Less(k, c.dir[i].value.min) && AllAbove(c.nodes[i], k)
    {
      assert Announces(c.dir[i], i) && Holds(c.nodes[i], c.dir[i].value);
      forall x | 0 <= x < |c.nodes[i]|
        ensures Less(k, c.nodes[i][x].key)
      {
        LeqLess(k, c.dir[i].value.min, c.nodes[i][x].key);
      }
    }
  }

  /** Every key a node holds is routed to that node. */
  lemma HeldKeyRoutes(c: Cluster, i: nat, x: nat)
    requires Inv(c) && i < |c.nodes| && x < |c.nodes[i]|
    ensures Floor(c.dir, c.nodes[i][x].key) == i
  {
    DirectorySorted(c);
    var k := c.nodes[i][x].key;
    assert Announces(c.dir[i], i) && Holds(c.nodes[i], c.dir[i].value);
    if i + 1 < |c.dir| {
      assert Announces(c.dir[i + 1], i + 1);
      LeqLess(k, c.dir[i].value.max, c.dir[i + 1].value.min);
    }
    FloorUnique(c.dir, k, i);
  }

  // ---------- one entry changed

  /** The new range m of node f stays clear of its neighbours' ranges. */
  ghost predicate Clear(dir: Directory, f: nat, m: Meta) {
    && (forall j :: 0 <= j < |dir| && j < f ==> Less(dir[j].value.max, m.min))
    && (forall j :: f < j < |dir| ==> Less(m.max, dir[j].value.min))
  }

  lemma RewriteInPlace(c: Cluster, f: nat, m: Meta)
    requires Inv(c) && f < |c.nodes| && Leq(m.min, m.max) && Clear(c.dir, f, m)
    ensures Rewrite(c.dir, c.dir[f], m) == c.dir[f := Entry(m.min, m)]
  {
    hide Less, Put, Delete;
    DirectorySorted(c);
    forall j | 0 <= j < f
      ensures Less(c.dir[..f][j].key, m.min)
    {
      assert Announces(c.dir[j], j);
      LeqLess(c.dir[j].value.min, c.dir[j].value.max, m.min);
    }
    var rest := c.dir[f + 1..];
    forall x | 0 <= x < |rest|
      ensures Less(m.min, rest[x].key)
    {
      var j := f + 1 + x;
      assert rest[x] == c.dir[j] && Announces(c.dir[j], j);
      LeqLess(m.min, m.max, c.dir[j].value.min);
    }
    ReplaceInPlace(c.dir, f, m.min, m);
  }

  /** Rewriting the entry of node f is an update in place, and the invariant survives it together with
      new data for node f, if the new range holds the data and stays clear of the others. */
  lemma UpdateKeepsInv(c: Cluster, f: nat, m: Meta, t: Table<Bytes>)
    requires Inv(c) && f < |c.nodes|
    requires Announces(Entry(m.min, m), f) && Clear(c.dir, f, m) && Holds(t, m)
    ensures Rewrite(c.dir, c.dir[f], m) == c.dir[f := Entry(m.min, m)]
    ensures Inv(Cluster(c.dir[f := Entry(m.min, m)], c.nodes[f := t]))
  {
    hide Less, Rewrite, Sorted;
    RewriteInPlace(c, f, m);
    var d := Cluster(c.dir[f := Entry(m.min, m)], c.nodes[f := t]);
    forall i | 0 <= i < |d.nodes|
      ensures Announces(d.dir[i], i) && Holds(d.nodes[i], d.dir[i].value)
    {
      assert Announces(c.dir[i], i) && Holds(c.nodes[i], c.dir[i].value);
    }
  }

  // ---------- put and delete

  lemma WidenedHolds(t: Table<Bytes>, m: Meta, lo: Bytes, hi: Bytes)
    requires Within(t, m.min, m.max) && Leq(lo, m.min) && Leq(m.max, hi)
    ensures Within(t, lo, hi)
  {
    forall i | 0 <= i < |t|
      ensures Leq(lo, t[i].key) && Leq(t[i].key, hi)
    {
      LeqTransitive(lo, m.min, t[i].key);
      LeqTransitive(t[i].key, m.max, hi);
    }
  }

  /** Widening node f's range to the key routed to it keeps it clear of the others. */
  lemma WidenedClear(c: Cluster, k: Bytes)
    requires Inv(c) && KeyFits(k)
    ensures var f := Floor(c.dir, k);
            && Routable(c, k) && f < |c.nodes| && c.dir[f].value.fd == f
            && var o := c.dir[f].value;
            && var m := Meta(Min(o.min, k), Max(o.max, k), f);
            && Announces(Entry(m.min, m), f) && Clear(c.dir, f, m)
            && Leq(m.min, o.min) && Leq(o.max, m.max) && Leq(m.min, k) && Leq(k, m.max)
  {
    RouteSplits(c, k);
    var f := Floor(c.dir, k);
    var o := c.dir[f].value;
    assert Announces(c.dir[f], f);
    Trichotomy(k, o.min);
    Trichotomy(o.max, k);
    LeqTransitive(Min(o.min, k), o.min, o.max);
    LeqTransitive(Min(o.min, k), o.max, Max(o.max, k));
    if Less(k, o.min) {
      assert f == 0 by { Trichotomy(k, o.min); }
    }
  }

  lemma PutHolds(t: Table<Bytes>, k: Bytes, v: Bytes, lo: Bytes, hi: Bytes)
    requires Sorted(t) && AllFit(t) && Within(t, lo, hi) && EntryFits(k, v) && Leq(lo, k) && Leq(k, hi)
    ensures Sorted(Put(t, k, v)) && AllFit(Put(t, k, v)) && Within(Put(t, k, v), lo, hi)
  {
  }

  /** A put changes one directory entry, that of the node the key is routed to, and in it only stretches
      the range to the key; the invariant survives. */
  lemma PutKeepsInv(c: Cluster, k: Bytes, v: Bytes)
    requires Inv(c) && EntryFits(k, v)
    ensures Routable(c, k) && Inv(PutStep(c, k, v))
    ensures var f := Floor(c.dir, k);
            && f < |c.dir|
            && var m := Meta(Min(c.dir[f].value.min, k), Max(c.dir[f].value.max, k), f);
            PutStep(c, k, v).dir == c.dir[f := Entry(m.min, m)]
  {
    WidenedClear(c, k);
    var f := Floor(c.dir, k);
    var o := c.dir[f].value;
    var m := Meta(Min(o.min, k), Max(o.max, k), f);
    assert Holds(c.nodes[f], o);
    WidenedHolds(c.nodes[f], o, m.min, m.max);
    PutHolds(c.nodes[f], k, v, m.min, m.max);
    UpdateKeepsInv(c, f, m, Put(c.nodes[f], k, v));
  }

  /** The smallest key announced for a delete never lies below the range, so the range keeps its start. */
  lemma DeletedMin(t: Table<Bytes>, m: Meta, k: Bytes)
    requires Holds(t, m) && KeyFits(k)
    ensures var lo := Predict(t, Log(DELETE, k, [])).0;
            Min(m.min, if lo == [] then m.min else lo) == m.min
  {
    var lo := Predict(t, Log(DELETE, k, [])).0;
    var newMin := if lo == [] then m.min else lo;
    assert Leq(m.min, newMin);
    Trichotomy(m.min, newMin);
  }

  lemma DeletedHolds(t: Table<Bytes>, m: Meta, k: Bytes)
    requires Holds(t, m)
    ensures Holds(Delete(t, k), m)
  {
  }

  /** A delete, of a present or an absent key, changes one directory entry: its range keeps its start and
      has its end stretched to the key, even though the key is gone; the invariant survives. */
  lemma DeleteKeepsInv(c: Cluster, k: Bytes)
    requires Inv(c) && KeyFits(k)
    ensures Routable(c, k) && Inv(DeleteStep(c, k))
    ensures var f := Floor(c.dir, k);
            && f < |c.dir|
            && var m := Meta(c.dir[f].value.min, Max(c.dir[f].value.max, k), f);
            DeleteStep(c, k).dir == c.dir[f := Entry(m.min, m)]
  {
    WidenedClear(c, k);
    var f := Floor(c.dir, k);
    var o, t := c.dir[f].value, c.nodes[f];
    assert Announces(c.dir[f], f) && Holds(t, o);
    DeletedMin(t, o, k);
    var m := Meta(o.min, Max(o.max, k), f);
    KeepStart(c, k);
    WidenedHolds(t, o, m.min, m.max);
    DeletedHolds(t, m, k);
    UpdateKeepsInv(c, f, m, Delete(t, k));
  }

  /** Widening only the end of the range is as safe as widening both. */
  lemma KeepStart(c: Cluster, k: Bytes)
    requires Inv(c) && KeyFits(k)
    ensures var f := Floor(c.dir, k);
            && f < |c.nodes|
            && var o := c.dir[f].value;
            && var m := Meta(o.min, Max(o.max, k), f);
            && Announces(Entry(m.min, m), f) && Clear(c.dir, f, m)
  {
    WidenedClear(c, k);
    var f := Floor(c.dir, k);
    var o := c.dir[f].value;
    assert Announces(c.dir[f], f);
    LeqTransitive(o.min, o.max, Max(o.max, k));
  }

  // ---------- migration

  /** The range of exactly what a node holds. */
  function ExactRange(t: Table<Bytes>, i: int): Meta {
    Meta(FirstKey(t), LastKey(t), i)
  }

  lemma ExactRangeHolds(t: Table<Bytes>, i: int)
    requires Sorted(t) && AllFit(t) && t != []
    ensures Holds(t, ExactRange(t, i)) && Announces(Entry(FirstKey(t), ExactRange(t, i)), i)
  {
    assert KeyFits(t[0].key) && KeyFits(t[|t| - 1].key);
  }

  /** What is left of the source after it gave up its boundary entry. */
  function Rest(t: Table<Bytes>, fwd: bool): Table<Bytes>
    requires t != []
  {
    if fwd then t[..|t| - 1] else t[1..]
  }

  function Extended(t: Table<Bytes>, e: Entry<Bytes>, fwd: bool): Table<Bytes> {
    if fwd then [e] + t else t + [e]
  }

  lemma SourceData(t: Table<Bytes>, fwd: bool)
    requires Sorted(t) && |t| >= 2
    ensures var e, r := BoundaryEntry(t, fwd), Rest(t, fwd);
            && Delete(t, e.key) == r && r != []
            && Predict(t, Log(DELETE, e.key, [])) == (FirstKey(r), LastKey(r))
            && (if fwd then Less(LastKey(r), e.key) else Less(e.key, FirstKey(r)))
  {
    hide Less;
    var e, r := BoundaryEntry(t, fwd), Rest(t, fwd);
    DeleteEnds(t);
    DeleteEndKeys(t, e.key);
    LessIrreflexive(t[0].key);
    assert Less(t[0].key, t[|t| - 1].key);
    PredictDelete(t, e.key);
    assert if fwd then LastKey(r) == t[|t| - 2].key else FirstKey(r) == t[1].key;
  }

  lemma PredictDelete(t: Table<Bytes>, k: Bytes)
    requires Sorted(t) && t != []
    ensures Predict(t, Log(DELETE, k, [])) == (FirstKey(Delete(t, k)), LastKey(Delete(t, k)))
  {
    hide Delete;
    DeleteEndKeys(t, k);
  }

  /** Narrowing a range keeps it clear of the others. */
  lemma NarrowedClear(c: Cluster, i: nat, m: Meta)
    requires Inv(c) && i < |c.dir|
    requires Leq(c.dir[i].value.min, m.min) && Leq(m.max, c.dir[i].value.max)
    ensures Clear(c.dir, i, m)
  {
    forall j | 0 <= j < |c.dir| && j < i
      ensures Less(c.dir[j].value.max, m.min)
    {
      LeqLess(c.dir[j].value.max, c.dir[i].value.min, m.min);
    }
    forall j | i < j < |c.dir|
      ensures Less(m.max, c.dir[j].value.min)
    {
      LeqLess(m.max, c.dir[i].value.max, c.dir[j].value.min);
    }
  }

  lemma SourceSide(c: Cluster, i: nat, fwd: bool)
    requires Inv(c) && Neighboured(c.nodes, i, fwd) && |c.nodes[i]| >= 2
    ensures var r := Rest(c.nodes[i], fwd);
            var m1 := ExactRange(r, i);
            Holds(r, m1) && Announces(Entry(m1.min, m1), i) && Clear(c.dir, i, m1)
  {
    var t := c.nodes[i];
    assert Holds(t, c.dir[i].value);
    var r := Rest(t, fwd);
    ExactRangeHolds(r, i);
    NarrowedClear(c, i, ExactRange(r, i));
  }

  /** In b, node i has already given e up; its neighbour j takes it. */
  lemma TargetSide(b: Cluster, j: nat, i: nat, e: Entry<Bytes>, fwd: bool)
    requires Inv(b) && j < |b.nodes| && i < |b.nodes| && j == Neighbour(i, fwd) && EntryFits(e.key, e.value)
    requires if fwd then Less(b.dir[i].value.max, e.key) else Less(e.key, b.dir[i].value.min)
    requires forall x :: 0 <= x < |b.dir| && x < i ==> Less(b.dir[x].value.max, e.key)
    requires forall x :: i < x < |b.dir| ==> Less(e.key, b.dir[x].value.min)
    ensures var t := b.nodes[j];
            var t', m2 := Extended(t, e, fwd), ExactRange(Extended(t, e, fwd), j);
            && Put(t, e.key, e.value) == t' && Predict(t, Log(PUT, e.key, e.value)) == (m2.min, m2.max)
            && Holds(t', m2) && Announces(Entry(m2.min, m2), j) && Clear(b.dir, j, m2)
  {
    var t, o := b.nodes[j], b.dir[j].value;
    assert Announces(b.dir[j], j) && Announces(b.dir[i], i) && Holds(t, o);
    TargetOrder(t, o, e.key, fwd);
    var t' := Extended(t, e, fwd);
    var m2 := ExactRange(t', j);
    if fwd {
      PutFront(t, e.key, e.value);
    } else {
      PutBack(t, e.key, e.value);
    }
    assert AllFit(t');
    ExactRangeHolds(t', j);
    if t != [] {
      assert KeyFits(t[0].key);
      PutEndKeys(t, e.key, e.value);
    }
    forall x | 0 <= x < |b.dir| && x < j
      ensures Less(b.dir[x].value.max, m2.min)
    {
      if !fwd && t != [] {
        LeqLess(b.dir[x].value.max, o.min, t[0].key);
      }
    }
    forall x | j < x < |b.dir|
      ensures Less(m2.max, b.dir[x].value.min)
    {
      if fwd && t != [] {
        LeqLess(t[|t| - 1].key, o.max, b.dir[x].value.min);
      }
    }
  }

  lemma TargetOrder(t: Table<Bytes>, o: Meta, k: Bytes, fwd: bool)
    requires Holds(t, o)
    requires if fwd then Less(k, o.min) else Less(o.max, k)
    ensures if fwd then AllAbove(t, k) else AllBelow(t, k)
  {
    forall x | 0 <= x < |t|
      ensures if fwd then Less(k, t[x].key) else Less(t[x].key, k)
    {
      if fwd {
        LeqLess(k, o.min, t[x].key);
      } else {
        LeqLess(t[x].key, o.max, k);
      }
    }
  }

  /** The cluster after the source side of a migration only. */
  ghost function HalfMoved(c: Cluster, i: nat, fwd: bool): Cluster
    requires i < |c.nodes| == |c.dir| && c.nodes[i] != []
  {
    var r := Rest(c.nodes[i], fwd);
    var m1 := ExactRange(r, i);
    Cluster(c.dir[i := Entry(m1.min, m1)], c.nodes[i := r])
  }

  lemma HalfMovedInv(c: Cluster, i: nat, fwd: bool)
    requires Inv(c) && Neighboured(c.nodes, i, fwd) && |c.nodes[i]| >= 2
    ensures Inv(HalfMoved(c, i, fwd))
    ensures var r := Rest(c.nodes[i], fwd);
            Rewrite(c.dir, c.dir[i], ExactRange(r, i)) == HalfMoved(c, i, fwd).dir
  {
    SourceSide(c, i, fwd);
    var r := Rest(c.nodes[i], fwd);
    UpdateKeepsInv(c, i, ExactRange(r, i), r);
  }

  /** The boundary key lies between what is left of the source and everything on its far side. */
  lemma BoundaryKey(c: Cluster, i: nat, fwd: bool)
    requires Inv(c) && Neighboured(c.nodes, i, fwd) && |c.nodes[i]| >= 2
    ensures var b, e := HalfMoved(c, i, fwd), BoundaryEntry(c.nodes[i], fwd);
            && EntryFits(e.key, e.value) && Floor(c.dir, e.key) == i
            && (if fwd then Less(b.dir[i].value.max, e.key) else Less(e.key, b.dir[i].value.min))
            && (forall x :: 0 <= x < |b.dir| && x < i ==> Less(b.dir[x].value.max, e.key))
            && (forall x :: i < x < |b.dir| ==> Less(e.key, b.dir[x].value.min))
  {
    hide Less, Predict;
    var t := c.nodes[i];
    assert Holds(t, c.dir[i].value);
    SourceData(t, fwd);
    var x := if fwd then |t| - 1 else 0;
    HeldKeyRoutes(c, i, x);
    RouteSplits(c, t[x].key);
  }

  /** Announced bounds that are not empty replace the whole range. */
  lemma NarrowToExact(o: Meta, t: Table<Bytes>, i: int)
    requires t != [] && AllFit(t) && o.fd == i
    ensures Narrow(o, FirstKey(t), LastKey(t)) == ExactRange(t, i)
  {
    assert KeyFits(t[0].key) && KeyFits(t[|t| - 1].key);
  }

  /** The two directory edits of a migration, one after the other. */
  lemma MoveBoundaryForm(c: Cluster, i: nat, fwd: bool)
    requires Inv(c) && Neighboured(c.nodes, i, fwd) && |c.nodes[i]| >= 2
    ensures var b, e, j := HalfMoved(c, i, fwd), BoundaryEntry(c.nodes[i], fwd), Neighbour(i, fwd);
            var r, t' := Rest(c.nodes[i], fwd), Extended(c.nodes[j], e, fwd);
            var m2 := ExactRange(t', j);
            && MoveBoundary(c.dir, e.key, fwd, FirstKey(r), LastKey(r), FirstKey(t'), LastKey(t'))
               == b.dir[j := Entry(m2.min, m2)]
            && Inv(Cluster(b.dir[j := Entry(m2.min, m2)], b.nodes[j := t']))
  {
    hide Less, Put, Delete;
    var b, e, j := HalfMoved(c, i, fwd), BoundaryEntry(c.nodes[i], fwd), Neighbour(i, fwd);
    var r, t' := Rest(c.nodes[i], fwd), Extended(c.nodes[j], e, fwd);
    assert Announces(c.dir[i], i) && Announces(c.dir[j], j);
    assert Holds(c.nodes[i], c.dir[i].value) && Holds(c.nodes[j], c.dir[j].value);
    HalfMovedInv(c, i, fwd);
    BoundaryKey(c, i, fwd);
    TargetSide(b, j, i, e, fwd);
    UpdateKeepsInv(b, j, ExactRange(t', j), t');
    NarrowToExact(c.dir[i].value, r, i);
    NarrowToExact(c.dir[j].value, t', j);
    assert b.dir[j] == c.dir[j];
  }

  /** Unfolds Migrate into the two updates. */
  lemma MigrateForm(c: Cluster, i: nat, fwd: bool)
    requires Inv(c) && Neighboured(c.nodes, i, fwd) && |c.nodes[i]| >= 2
    ensures var b, e, j := HalfMoved(c, i, fwd), BoundaryEntry(c.nodes[i], fwd), Neighbour(i, fwd);
            var t' := Extended(c.nodes[j], e, fwd);
            var m2 := ExactRange(t', j);
            && Migrate(c, i, fwd) == Cluster(b.dir[j := Entry(m2.min, m2)], b.nodes[j := t'])
            && Inv(Migrate(c, i, fwd))
  {
    var b, e, j := HalfMoved(c, i, fwd), BoundaryEntry(c.nodes[i], fwd), Neighbour(i, fwd);
    assert Holds(c.nodes[i], c.dir[i].value);
    SourceData(c.nodes[i], fwd);
    HalfMovedInv(c, i, fwd);
    BoundaryKey(c, i, fwd);
    TargetSide(b, j, i, e, fwd);
    assert b.nodes[j] == c.nodes[j];
    MoveBoundaryForm(c, i, fwd);
  }

  lemma ClosedForm(c: Cluster, i: nat, fwd: bool, r: Cluster)
    requires Neighboured(c.nodes, i, fwd) && |c.nodes| == |c.dir| && c.nodes[i] != []
    requires var b, e, j := HalfMoved(c, i, fwd), BoundaryEntry(c.nodes[i], fwd), Neighbour(i, fwd);
             var t' := Extended(c.nodes[j], e, fwd);
             var m2 := ExactRange(t', j);
             r == Cluster(b.dir[j := Entry(m2.min, m2)], b.nodes[j := t'])
    ensures r.nodes == Shift(c.nodes, i, fwd)
    ensures var j := Neighbour(i, fwd);
            && r.dir[i].value == ExactRange(r.nodes[i], i) && r.dir[j].value == ExactRange(r.nodes[j], j)
            && (forall x :: 0 <= x < |c.dir| && x != i && x != j ==> r.dir[x] == c.dir[x])
  {
  }

  /** The whole migration at the data and the directory, in closed form: the boundary entry crosses to
      the neighbour, both rewritten ranges are exactly what the two nodes now hold, and the invariant
      is kept, although both edits go by the snapshot taken before the first. */
  lemma MigrateExact(c: Cluster, i: nat, fwd: bool)
    requires Inv(c) && Neighboured(c.nodes, i, fwd) && |c.nodes[i]| >= 2
    ensures var r, j := Migrate(c, i, fwd), Neighbour(i, fwd);
            && Inv(r)
            && r.nodes == Shift(c.nodes, i, fwd)
            && r.dir[i].value == ExactRange(r.nodes[i], i) && r.dir[j].value == ExactRange(r.nodes[j], j)
            && (forall x :: 0 <= x < |c.dir| && x != i && x != j ==> r.dir[x] == c.dir[x])
  {
    MigrateForm(c, i, fwd);
    ClosedForm(c, i, fwd, Migrate(c, i, fwd));
  }
}
