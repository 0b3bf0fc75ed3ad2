/** The whole store as one value: the control node's directory and the data of the store nodes, with
    what each command and each migration does to them. */
module Clusters {
  import opened Bytes
  import opened Tables
  import opened HandleBuff
  import opened Records
  import opened StoreSpec
  import opened Wire
  import opened Balance

  type Directory = Table<Meta>

  datatype Cluster = Cluster(dir: Directory, nodes: Shards)

  // ---------- what the control node relies on

  /** One directory entry per node, in node order, each stored under its own smallest key; ranges that
      do not overlap; and every key of a node inside the range announced for it. */
  ghost predicate Inv(c: Cluster) {
    && c.nodes != [] && |c.dir| == |c.nodes|
    && (forall i :: 0 <= i < |c.dir| ==> Announces(c.dir[i], i))
    && Apart(c.dir)
    && (forall i :: 0 <= i < |c.nodes| ==> Holds(c.nodes[i], c.dir[i].value))
  }

  ghost predicate Announces(e: Entry<Meta>, i: int) {
    e.key == e.value.min && e.value.fd == i && Leq(e.value.min, e.value.max)
    && KeyFits(e.value.min) && KeyFits(e.value.max)
  }

  ghost predicate Apart(dir: Directory) {
    forall i, j :: 0 <= i < j < |dir| ==> Less(dir[i].value.max, dir[j].value.min)
  }

  ghost predicate Holds(t: Table<Bytes>, m: Meta) {
    Sorted(t) && AllFit(t) && Within(t, m.min, m.max)
  }

  ghost predicate Within(t: Table<Bytes>, lo: Bytes, hi: Bytes) {
    forall i :: 0 <= i < |t| ==> Leq(lo, t[i].key) && Leq(t[i].key, hi)
  }

  lemma DirectorySorted(c: Cluster)
    requires Inv(c)
    ensures Sorted(c.dir)
  {
    forall i, j | 0 <= i < j < |c.dir|
      ensures Less(c.dir[i].key, c.dir[j].key)
    {
      LeqLess(c.dir[i].value.min, c.dir[i].value.max, c.dir[j].value.min);
    }
  }

  // ---------- steps

  /** Rewrites one directory entry, read from a snapshot: delete it under its old key, store it under
      the new smallest key. */
  function Rewrite(dir: Directory, entry: Entry<Meta>, m: Meta): Directory {
    Put(Delete(dir, entry.key), m.min, m)
  }

  /** The bounds a LOG reply announced, where they are not empty. */
  function Narrow(m: Meta, lo: Bytes, hi: Bytes): Meta {
    Meta(if lo != [] then lo else m.min, if hi != [] then hi else m.max, m.fd)
  }

  predicate Routable(c: Cluster, k: Bytes) {
    c.dir != [] && 0 <= c.dir[Floor(c.dir, k)].value.fd < |c.nodes|
  }

  function PutStep(c: Cluster, k: Bytes, v: Bytes): Cluster
    requires Routable(c, k)
  {
    var e := c.dir[Floor(c.dir, k)];
    var m := Meta(Min(e.value.min, k), Max(e.value.max, k), e.value.fd);
    Cluster(Rewrite(c.dir, e, m), c.nodes[m.fd := Put(c.nodes[m.fd], k, v)])
  }

  /** Deleting widens the announced range to the deleted key; it never narrows it. */
  function DeleteStep(c: Cluster, k: Bytes): Cluster
    requires Routable(c, k)
  {
    var e := c.dir[Floor(c.dir, k)];
    var (lo, hi) := Predict(c.nodes[e.value.fd], Log(DELETE, k, []));
    var newMin := if lo == [] then e.value.min else lo;
    var m := Meta(Min(e.value.min, newMin), Max(e.value.max, k), e.value.fd);
    Cluster(Rewrite(c.dir, e, m), c.nodes[m.fd := Delete(c.nodes[m.fd], k)])
  }

  /** The printed answer: the empty string stands for an absent key. */
  function GetStep(c: Cluster, k: Bytes): Bytes
    requires Routable(c, k)
  {
    GetData(c.nodes[c.dir[Floor(c.dir, k)].value.fd], k)
  }

  /** One migration: the boundary entry of node i goes to its neighbour. Both directory edits read the
      table as it was before the first of them. Where the program would step its iterator off the end
      of that snapshot, the second edit is left out here. */
  function Migrate(c: Cluster, i: nat, fwd: bool): (r: Cluster)
    requires Neighboured(c.nodes, i, fwd) && c.nodes[i] != []
    ensures |r.nodes| == |c.nodes|
  {
    var e, j := BoundaryEntry(c.nodes[i], fwd), Neighbour(i, fwd);
    var (lo1, hi1) := Predict(c.nodes[i], Log(DELETE, e.key, []));
    var (lo2, hi2) := Predict(c.nodes[j], Log(PUT, e.key, e.value));
    Cluster(MoveBoundary(c.dir, e.key, fwd, lo1, hi1, lo2, hi2),
            c.nodes[i := Delete(c.nodes[i], e.key)][j := Put(c.nodes[j], e.key, e.value)])
  }

  function MoveBoundary(dir: Directory, k: Bytes, fwd: bool, lo1: Bytes, hi1: Bytes, lo2: Bytes, hi2: Bytes): Directory
  {
    var f := Floor(dir, k);
    var g := Neighbour(f, fwd);
    if f >= |dir| then dir
    else
      var once := Rewrite(dir, dir[f], Narrow(dir[f].value, lo1, hi1));
      if 0 <= g < |dir| then Rewrite(once, dir[g], Narrow(dir[g].value, lo2, hi2)) else once
  }

  // ---------- re_balance

  /** The weaker shape every step keeps, whatever the directory says: ordered data, and a directory that
      is not empty and names existing nodes. */
  ghost predicate Shaped(c: Cluster) {
    && c.nodes != [] && AllSorted(c.nodes)
    && c.dir != [] && NamesNodes(c.dir, |c.nodes|)
  }

  ghost predicate AllSorted(s: Shards) {
    forall i :: 0 <= i < |s| ==> Sorted(s[i])
  }

  ghost predicate NamesNodes(dir: Directory, n: nat) {
    forall i :: 0 <= i < |dir| ==> 0 <= dir[i].value.fd < n
  }

  lemma RewriteNames(dir: Directory, e: Entry<Meta>, m: Meta, n: nat)
    requires NamesNodes(dir, n) && 0 <= m.fd < n
    ensures Rewrite(dir, e, m) != [] && NamesNodes(Rewrite(dir, e, m), n)
  {
    hide Put, Delete, Less;
    DeleteNames(dir, e.key, n);
    PutNames(Delete(dir, e.key), m.min, m, n);
  }

  lemma DeleteNames(dir: Directory, k: Bytes, n: nat)
    requires NamesNodes(dir, n)
    ensures NamesNodes(Delete(dir, k), n)
  {
    hide Less, Seek;
  }

  lemma PutNames(dir: Directory, k: Bytes, m: Meta, n: nat)
    requires NamesNodes(dir, n) && 0 <= m.fd < n
    ensures Put(dir, k, m) != [] && NamesNodes(Put(dir, k, m), n)
  {
    hide Less, Seek;
  }

  lemma StepsShaped(c: Cluster, k: Bytes, v: Bytes)
    requires Shaped(c)
    ensures Routable(c, k) && Shaped(PutStep(c, k, v)) && Shaped(DeleteStep(c, k))
  {
    var e := c.dir[Floor(c.dir, k)];
    RewriteNames(c.dir, e, Meta(Min(e.value.min, k), Max(e.value.max, k), e.value.fd), |c.nodes|);
    var lo := Predict(c.nodes[e.value.fd], Log(DELETE, k, [])).0;
    var newMin := if lo == [] then e.value.min else lo;
    RewriteNames(c.dir, e, Meta(Min(e.value.min, newMin), Max(e.value.max, k), e.value.fd), |c.nodes|);
  }

  lemma MoveBoundaryNames(dir: Directory, k: Bytes, fwd: bool, lo1: Bytes, hi1: Bytes, lo2: Bytes, hi2: Bytes, n: nat)
    requires dir != [] && NamesNodes(dir, n)
    ensures MoveBoundary(dir, k, fwd, lo1, hi1, lo2, hi2) != []
    ensures NamesNodes(MoveBoundary(dir, k, fwd, lo1, hi1, lo2, hi2), n)
  {
    var f := Floor(dir, k);
    var g := Neighbour(f, fwd);
    var m := Narrow(dir[f].value, lo1, hi1);
    RewriteNames(dir, dir[f], m, n);
    if 0 <= g < |dir| {
      RewriteNames(Rewrite(dir, dir[f], m), dir[g], Narrow(dir[g].value, lo2, hi2), n);
    }
  }

  lemma MigrateShaped(c: Cluster, i: nat, fwd: bool)
    requires Shaped(c) && Neighboured(c.nodes, i, fwd) && c.nodes[i] != []
    ensures Shaped(Migrate(c, i, fwd))
    ensures |Migrate(c, i, fwd).nodes[i]| == |c.nodes[i]| - 1
  {
    hide Predict, MoveBoundary, Put, Delete;
    DeleteEnds(c.nodes[i]);
    var e, j := BoundaryEntry(c.nodes[i], fwd), Neighbour(i, fwd);
    var (lo1, hi1) := Predict(c.nodes[i], Log(DELETE, e.key, []));
    var (lo2, hi2) := Predict(c.nodes[j], Log(PUT, e.key, e.value));
    MoveBoundaryNames(c.dir, e.key, fwd, lo1, hi1, lo2, hi2, |c.nodes|);
    SortedAfterMove(c.nodes, i, j, e);
  }

  lemma SortedAfterMove(s: Shards, i: nat, j: nat, e: Entry<Bytes>)
    requires i < |s| && j < |s| && AllSorted(s)
    ensures AllSorted(s[i := Delete(s[i], e.key)][j := Put(s[j], e.key, e.value)])
  {
    hide Less, Put, Delete, Sorted;
  }

  ghost function Drained(c: Cluster, i: nat, fwd: bool, q: Quota): (r: Cluster)
    requires Shaped(c) && Neighboured(c.nodes, i, fwd)
    ensures Shaped(r) && |r.nodes| == |c.nodes|
    decreases |c.nodes[i]|
  {
    if NotTooMuch(c.nodes[i], q) then c
    else
      MigrateShaped(c, i, fwd);
      Drained(Migrate(c, i, fwd), i, fwd, q)
  }

  ghost function ForwardPass(c: Cluster, i: nat, q: Quota): (r: Cluster)
    requires Shaped(c)
    ensures Shaped(r) && |r.nodes| == |c.nodes|
    decreases |c.nodes| - i
  {
    if i + 1 >= |c.nodes| then c else ForwardPass(Drained(c, i, true, q), i + 1, q)
  }

  ghost function BackwardPass(c: Cluster, i: nat, q: Quota): (r: Cluster)
    requires Shaped(c) && i < |c.nodes|
    ensures Shaped(r) && |r.nodes| == |c.nodes|
    decreases i
  {
    if i == 0 then c else BackwardPass(Drained(c, i, false, q), i - 1, q)
  }

  ghost function ReBalance(c: Cluster): (r: Cluster)
    requires Shaped(c)
    ensures Shaped(r) && |r.nodes| == |c.nodes|
  {
    var q := QuotaOf(c.nodes);
    BackwardPass(ForwardPass(c, 0, q), |c.nodes| - 1, q)
  }
}
