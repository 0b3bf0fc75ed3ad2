/** A migration moment by moment: what the control node sends and stores, in order, and what a reader would
    find between any two of these steps. */
module Moments {
  import opened Bytes
  import opened Tables
  import opened HandleBuff
  import opened Records
  import opened StoreSpec
  import opened Wire
  import opened Balance
  import opened Clusters
  import opened ClusterLaws
  import opened Refinement
  import opened ControlLaws

  /** A request to a node, or one directory entry removed and one stored. */
  datatype Event = Sent(node: nat, request: Request) | Stored(removed: Bytes, entry: Meta)

  datatype World = World(dir: Directory, states: seq<Node>)

  function Happen(w: World, e: Event): World {
    match e
    case Sent(n, q) => if n < |w.states| then w.(states := w.states[n := Handle(w.states[n], q)]) else w
    case Stored(k, m) => w.(dir := Put(Delete(w.dir, k), m.min, m))
  }

  function HappenAll(w: World, es: seq<Event>): World {
    if es == [] then w else Happen(HappenAll(w, es[..|es| - 1]), es[|es| - 1])
  }

  /** A put or del of the console: log, store one directory entry, commit, all about one node. */
  ghost predicate WriteEvents(before: seq<Event>, after: seq<Event>, r: Log) {
    exists f, k, m :: after == before + [Sent(f, LogReq(r)), Stored(k, m), Sent(f, CommitLog)] && m.fd == f
  }

  /** Fetch, log on both nodes, store both directory entries, commit on both nodes. */
  function MigrationEvents(c: Cluster, i: nat, fwd: bool): seq<Event>
    requires Neighboured(c.nodes, i, fwd) && c.nodes[i] != [] && |c.dir| == |c.nodes|
  {
    var e, j := BoundaryEntry(c.nodes[i], fwd), Neighbour(i, fwd);
    [Sent(i, if fwd then MaxKey else MinKey),
     Sent(i, LogReq(Log(DELETE, e.key, []))),
     Sent(j, LogReq(Log(PUT, e.key, e.value))),
     Stored(c.dir[i].key, ExactRange(Rest(c.nodes[i], fwd), i)),
     Stored(c.dir[j].key, ExactRange(Extended(c.nodes[j], e, fwd), j)),
     Sent(i, CommitLog),
     Sent(j, CommitLog)]
  }

  /** The bounds that the replies announce make the entries stored exact. */
  lemma StoredExact(c: Cluster, i: nat, fwd: bool)
    requires Inv(c) && Neighboured(c.nodes, i, fwd) && |c.nodes[i]| >= 2
    ensures |c.dir| == |c.nodes|
    ensures var e, j := BoundaryEntry(c.nodes[i], fwd), Neighbour(i, fwd);
            var (lo1, hi1) := Predict(c.nodes[i], DeleteRecord(e));
            var (lo2, hi2) := Predict(c.nodes[j], PutRecord(e));
            && Floor(c.dir, e.key) == i
            && Narrow(c.dir[i].value, lo1, hi1) == ExactRange(Rest(c.nodes[i], fwd), i)
            && Narrow(c.dir[j].value, lo2, hi2) == ExactRange(Extended(c.nodes[j], e, fwd), j)
  {
    hide Less, Predict, Put, Delete, Narrow;
    var b, e, j := HalfMoved(c, i, fwd), BoundaryEntry(c.nodes[i], fwd), Neighbour(i, fwd);
    var r, t := Rest(c.nodes[i], fwd), Extended(c.nodes[j], e, fwd);
    assert Announces(c.dir[i], i) && Announces(c.dir[j], j);
    assert Holds(c.nodes[i], c.dir[i].value);
    SourceData(c.nodes[i], fwd);
    SourceSide(c, i, fwd);
    NarrowToExact(c.dir[i].value, r, i);
    HalfMovedInv(c, i, fwd);
    BoundaryKey(c, i, fwd);
    TargetSide(b, j, i, e, fwd);
    assert b.nodes[j] == c.nodes[j];
    NarrowToExact(c.dir[j].value, t, j);
  }

  /** What a reader finds who goes to the node the directory names and looks at its data, or also at its log. */
  ghost predicate Reachable(w: World, k: Bytes, v: Bytes) {
    && w.dir != []
    && var f := w.dir[Floor(w.dir, k)].value.fd;
       && 0 <= f < |w.states|
       && (Find(w.states[f].data, k) == Some(v) || Find(Logical(w.states[f]), k) == Some(v))
  }

  // ---------- the eight moments

  ghost function Logged(c: Cluster, i: nat, fwd: bool): seq<Node>
    requires Neighboured(c.nodes, i, fwd) && c.nodes[i] != []
  {
    var e, j := BoundaryEntry(c.nodes[i], fwd), Neighbour(i, fwd);
    IdleStates(c.nodes)[i := WriteLog(Idle(c.nodes[i]), DeleteRecord(e))]
                       [j := WriteLog(Idle(c.nodes[j]), PutRecord(e))]
  }

  ghost function Moment(c: Cluster, i: nat, fwd: bool, n: nat): World
    requires Neighboured(c.nodes, i, fwd) && c.nodes[i] != [] && |c.dir| == |c.nodes|
  {
    var j := Neighbour(i, fwd);
    var idle, logged := IdleStates(c.nodes), Logged(c, i, fwd);
    if n <= 1 then World(c.dir, idle)
    else if n == 2 then World(c.dir, idle[i := logged[i]])
    else if n == 3 then World(c.dir, logged)
    else if n == 4 then World(HalfMoved(c, i, fwd).dir, logged)
    else if n == 5 then World(Migrate(c, i, fwd).dir, logged)
    else if n == 6 then World(Migrate(c, i, fwd).dir, logged[i := Commit(logged[i])])
    else World(Migrate(c, i, fwd).dir, logged[i := Commit(logged[i])][j := Commit(logged[j])])
  }

  lemma DirMoments(c: Cluster, i: nat, fwd: bool)
    requires Inv(c) && Neighboured(c.nodes, i, fwd) && |c.nodes[i]| >= 2
    ensures var b, e, j := HalfMoved(c, i, fwd), BoundaryEntry(c.nodes[i], fwd), Neighbour(i, fwd);
            var m1, m2 := ExactRange(Rest(c.nodes[i], fwd), i), ExactRange(Extended(c.nodes[j], e, fwd), j);
            && Inv(b) && |c.dir| == |b.dir| == |c.nodes|
            && Put(Delete(c.dir, c.dir[i].key), m1.min, m1) == b.dir
            && Put(Delete(b.dir, c.dir[j].key), m2.min, m2) == Migrate(c, i, fwd).dir
  {
    hide Less, Put, Delete, Predict, Narrow;
    var e, j := BoundaryEntry(c.nodes[i], fwd), Neighbour(i, fwd);
    var (lo1, hi1) := Predict(c.nodes[i], DeleteRecord(e));
    var (lo2, hi2) := Predict(c.nodes[j], PutRecord(e));
    StoredExact(c, i, fwd);
    HalfMovedInv(c, i, fwd);
    MigrateDir(c, i, fwd, lo1, hi1, lo2, hi2);
  }

  lemma EventsToMoment(c: Cluster, i: nat, fwd: bool, n: nat)
    requires Inv(c) && Neighboured(c.nodes, i, fwd) && |c.nodes[i]| >= 2 && |c.dir| == |c.nodes| && n < 7
    ensures Happen(Moment(c, i, fwd, n), MigrationEvents(c, i, fwd)[n]) == Moment(c, i, fwd, n + 1)
  {
    hide Less, Put, Delete, Inv, WriteLog, Commit, Migrate, HalfMoved, ExactRange, Rest, Extended, Idle;
    DirMoments(c, i, fwd);
    var idle, logged := IdleStates(c.nodes), Logged(c, i, fwd);
    assert idle[i := idle[i]] == idle;
  }

  lemma {:induction false} EventsReach(c: Cluster, i: nat, fwd: bool, n: nat)
    requires Inv(c) && Neighboured(c.nodes, i, fwd) && |c.nodes[i]| >= 2 && |c.dir| == |c.nodes| && n <= 7
    ensures HappenAll(World(c.dir, IdleStates(c.nodes)), MigrationEvents(c, i, fwd)[..n]) == Moment(c, i, fwd, n)
  {
    hide Inv, Happen, Migrate, HalfMoved, IdleStates, Logged, WriteLog, Commit;
    if n > 0 {
      var es := MigrationEvents(c, i, fwd);
      EventsReach(c, i, fwd, n - 1);
      EventsToMoment(c, i, fwd, n - 1);
      assert es[..n][..n - 1] == es[..n - 1];
    }
  }

  // ---------- nothing is ever out of reach

  /** The node each of the three directories names for a key held before the migration. */
  lemma NamedNodes(c: Cluster, i: nat, fwd: bool, y: nat, x: nat)
    requires Inv(c) && Neighboured(c.nodes, i, fwd) && |c.nodes[i]| >= 2 && y < |c.nodes| && x < |c.nodes[y]|
    ensures var k, e, j := c.nodes[y][x].key, BoundaryEntry(c.nodes[i], fwd), Neighbour(i, fwd);
            var b, m := HalfMoved(c, i, fwd), Migrate(c, i, fwd);
            && |c.dir| == |b.dir| == |m.dir| == |c.nodes|
            && Floor(c.dir, k) == y
            && Floor(b.dir, k) == (if k == e.key && !fwd then j else y)
            && Floor(m.dir, k) == (if k == e.key then j else y)
            && (k == e.key ==> y == i && c.nodes[y][x] == e)
            && (forall z :: 0 <= z < |c.dir| ==> c.dir[z].value.fd == b.dir[z].value.fd == m.dir[z].value.fd == z)
  {
    hide Less, Inv, Migrate, Predict, HalfMoved, Rest, Extended, Floor, ExactRange, Shift, Sorted;
    NodeNumbers(c, i, fwd);
    HeldKeyRoutes(c, y, x);
    BoundaryHeld(c, i, fwd);
    if c.nodes[y][x].key == BoundaryEntry(c.nodes[i], fwd).key {
      SameEntry(c, i, x, if fwd then |c.nodes[i]| - 1 else 0);
      MovedKeyNodes(c, i, fwd);
    } else {
      OtherKeyNodes(c, i, fwd, y, x);
    }
  }

  lemma NodeNumbers(c: Cluster, i: nat, fwd: bool)
    requires Inv(c) && Neighboured(c.nodes, i, fwd) && |c.nodes[i]| >= 2
    ensures |c.dir| == |c.nodes|
    ensures var b, m := HalfMoved(c, i, fwd), Migrate(c, i, fwd);
            && |b.dir| == |b.nodes| == |m.dir| == |m.nodes| == |c.nodes|
            && (forall z :: 0 <= z < |c.dir| ==> c.dir[z].value.fd == b.dir[z].value.fd == m.dir[z].value.fd == z)
  {
    hide Less, Inv, Migrate, HalfMoved, Rest, Extended, ExactRange, Shift;
    Numbered(c);
    HalfSizes(c, i, fwd);
    HalfMovedInv(c, i, fwd);
    MigrateExact(c, i, fwd);
    Numbered(HalfMoved(c, i, fwd));
    Numbered(Migrate(c, i, fwd));
  }

  lemma MovedKeyNodes(c: Cluster, i: nat, fwd: bool)
    requires Inv(c) && Neighboured(c.nodes, i, fwd) && |c.nodes[i]| >= 2 && |c.dir| == |c.nodes|
    ensures var k, j := BoundaryEntry(c.nodes[i], fwd).key, Neighbour(i, fwd);
            && Floor(HalfMoved(c, i, fwd).dir, k) == (if fwd then i else j)
            && Floor(Migrate(c, i, fwd).dir, k) == j
  {
    hide Less, Inv, Migrate, HalfMoved, Rest, Extended, Floor, ExactRange, Shift;
    BetweenHalves(c, i, fwd);
    MigrateExact(c, i, fwd);
    MovedPlace(c.nodes, i, fwd);
    HeldKeyRoutes(Migrate(c, i, fwd), Neighbour(i, fwd), if fwd then 0 else |c.nodes[Neighbour(i, fwd)]|);
  }

  lemma OtherKeyNodes(c: Cluster, i: nat, fwd: bool, y: nat, x: nat)
    requires Inv(c) && Neighboured(c.nodes, i, fwd) && |c.nodes[i]| >= 2 && |c.dir| == |c.nodes|
    requires y < |c.nodes| && x < |c.nodes[y]| && c.nodes[y][x].key != BoundaryEntry(c.nodes[i], fwd).key
    ensures Floor(HalfMoved(c, i, fwd).dir, c.nodes[y][x].key) == y
    ensures Floor(Migrate(c, i, fwd).dir, c.nodes[y][x].key) == y
  {
    hide Less, Inv, Migrate, HalfMoved, Rest, Extended, Floor, ExactRange, Shift;
    var xb, xm := OtherPlaces(c, i, fwd, y, x);
    HalfMovedInv(c, i, fwd);
    MigrateExact(c, i, fwd);
    HeldKeyRoutes(HalfMoved(c, i, fwd), y, xb);
    HeldKeyRoutes(Migrate(c, i, fwd), y, xm);
  }

  lemma HalfSizes(c: Cluster, i: nat, fwd: bool)
    requires i < |c.nodes| == |c.dir| && c.nodes[i] != []
    ensures |HalfMoved(c, i, fwd).nodes| == |HalfMoved(c, i, fwd).dir| == |c.nodes|
  {
  }

  lemma MovedPlace(s: Shards, i: nat, fwd: bool)
    requires Neighboured(s, i, fwd) && s[i] != []
    ensures var j := Neighbour(i, fwd);
            var t, x := Shift(s, i, fwd)[j], if fwd then 0 else |s[j]|;
            x < |t| && t[x] == BoundaryEntry(s[i], fwd)
  {
  }

  /** Where any other entry is once the source has given up its boundary entry, and then after the migration. */
  lemma OtherPlaces(c: Cluster, i: nat, fwd: bool, y: nat, x: nat) returns (xb: nat, xm: nat)
    requires Neighboured(c.nodes, i, fwd) && c.nodes[i] != [] && |c.dir| == |c.nodes|
    requires y < |c.nodes| && x < |c.nodes[y]| && !(y == i && x == (if fwd then |c.nodes[i]| - 1 else 0))
    ensures var b, s := HalfMoved(c, i, fwd).nodes, Shift(c.nodes, i, fwd);
            && |b| == |s| == |c.nodes|
            && xb < |b[y]| && b[y][xb] == c.nodes[y][x]
            && xm < |s[y]| && s[y][xm] == c.nodes[y][x]
  {
    hide ExactRange;
    xb := if y == i && !fwd then x - 1 else x;
    xm := if y == Neighbour(i, fwd) && fwd then x + 1 else xb;
  }

  lemma Numbered(c: Cluster)
    requires Inv(c)
    ensures |c.dir| == |c.nodes| && forall z :: 0 <= z < |c.dir| ==> c.dir[z].value.fd == z
  {
    hide Less, Holds;
    forall z | 0 <= z < |c.dir|
      ensures c.dir[z].value.fd == z
    {
      assert Announces(c.dir[z], z);
    }
  }

  lemma BoundaryHeld(c: Cluster, i: nat, fwd: bool)
    requires Inv(c) && Neighboured(c.nodes, i, fwd) && |c.nodes[i]| >= 2
    ensures Floor(c.dir, BoundaryEntry(c.nodes[i], fwd).key) == i
  {
    HeldKeyRoutes(c, i, if fwd then |c.nodes[i]| - 1 else 0);
  }

  lemma SameEntry(c: Cluster, i: nat, x: nat, y: nat)
    requires Inv(c) && i < |c.nodes| && x < |c.nodes[i]| && y < |c.nodes[i]|
    requires c.nodes[i][x].key == c.nodes[i][y].key
    ensures x == y
  {
    hide Less;
    assert Holds(c.nodes[i], c.dir[i].value);
    LessIrreflexive(c.nodes[i][x].key);
  }

  /** While only the source's entry has been stored. */
  lemma BetweenHalves(c: Cluster, i: nat, fwd: bool)
    requires Inv(c) && Neighboured(c.nodes, i, fwd) && |c.nodes[i]| >= 2
    ensures var b, k := HalfMoved(c, i, fwd), BoundaryEntry(c.nodes[i], fwd).key;
            |b.dir| == |c.nodes| && Floor(b.dir, k) == if fwd then i else i - 1
  {
    hide Less, Holds;
    var b, k := HalfMoved(c, i, fwd), BoundaryEntry(c.nodes[i], fwd).key;
    HalfMovedInv(c, i, fwd);
    BoundaryKey(c, i, fwd);
    DirectorySorted(b);
    var f := if fwd then i else i - 1;
    assert Announces(b.dir[f], f);
    LeqLess(b.dir[f].value.min, b.dir[f].value.max, k);
    if f + 1 < |b.dir| {
      assert Announces(b.dir[f + 1], f + 1);
    }
    FloorUnique(b.dir, k, f);
  }

  /** Between any two steps of a migration every key that was stored before it can be found where the
      directory then says, in the node's data or with its log applied; so the order of the steps leaves no
      gap. After the last step the world is that of the migrated cluster. */
  lemma NothingOutOfReach(c: Cluster, i: nat, fwd: bool, n: nat, y: nat, x: nat)
    requires Inv(c) && Neighboured(c.nodes, i, fwd) && |c.nodes[i]| >= 2 && n <= 7
    requires y < |c.nodes| && x < |c.nodes[y]|
    ensures |c.dir| == |c.nodes|
    ensures Reachable(HappenAll(World(c.dir, IdleStates(c.nodes)), MigrationEvents(c, i, fwd)[..n]),
                      c.nodes[y][x].key, c.nodes[y][x].value)
  {
    hide Less, Inv, HappenAll, Migrate, HalfMoved, WriteLog, Commit, Logical, Find, Floor, Sorted;
    NamedNodes(c, i, fwd, y, x);
    EventsReach(c, i, fwd, n);
    HeldInPairs(c, i, fwd, y, x);
  }

  /** What the two nodes' data and logs hold at the moments concerned. */
  lemma HeldInPairs(c: Cluster, i: nat, fwd: bool, y: nat, x: nat)
    requires Inv(c) && Neighboured(c.nodes, i, fwd) && |c.nodes[i]| >= 2
    requires y < |c.nodes| && x < |c.nodes[y]|
    ensures var e, j, k, v := BoundaryEntry(c.nodes[i], fwd), Neighbour(i, fwd), c.nodes[y][x].key, c.nodes[y][x].value;
            var l := Logged(c, i, fwd);
            && Find(c.nodes[y], k) == Some(v)
            && l[i].data == c.nodes[i] && l[j].data == c.nodes[j]
            && (k == e.key && v == e.value ==>
                 Find(Logical(l[j]), k) == Some(v) && Find(Commit(l[j]).data, k) == Some(v))
            && (k != e.key && (y == i || y == j) ==> Find(Commit(l[y]).data, k) == Some(v))
  {
    hide Less, Inv, Commit, Logical, Find, EncLog, Put;
    var e, j := BoundaryEntry(c.nodes[i], fwd), Neighbour(i, fwd);
    PairFacts(c, i, fwd, y);
    FindExact(c.nodes[y], c.nodes[y][x].key, c.nodes[y][x].value);
    FindExact(c.nodes[i], e.key, e.value);
    MovingKeyInOneNode(Idle(c.nodes[i]), Idle(c.nodes[j]), e.key, e.value);
  }

  lemma PairFacts(c: Cluster, i: nat, fwd: bool, y: nat)
    requires Inv(c) && Neighboured(c.nodes, i, fwd) && |c.nodes[i]| >= 2 && y < |c.nodes|
    ensures var e := BoundaryEntry(c.nodes[i], fwd);
            EntryFits(e.key, e.value)
            && Sorted(c.nodes[i]) && Sorted(c.nodes[Neighbour(i, fwd)]) && Sorted(c.nodes[y])
  {
    hide Less;
    BoundaryKey(c, i, fwd);
    assert Holds(c.nodes[i], c.dir[i].value);
    assert Holds(c.nodes[y], c.dir[y].value);
    assert Holds(c.nodes[Neighbour(i, fwd)], c.dir[Neighbour(i, fwd)].value);
  }

  /** After the last step the world is that of the migrated cluster, every log empty. */
  lemma EventsMigrate(c: Cluster, i: nat, fwd: bool)
    requires Inv(c) && Neighboured(c.nodes, i, fwd) && |c.nodes[i]| >= 2
    ensures |c.dir| == |c.nodes|
    ensures HappenAll(World(c.dir, IdleStates(c.nodes)), MigrationEvents(c, i, fwd))
         == World(Migrate(c, i, fwd).dir, IdleStates(Migrate(c, i, fwd).nodes))
  {
    hide Less, Inv, HappenAll, Migrate, HalfMoved, WriteLog, Commit, Idle;
    InvSizes(c);
    var es, st := MigrationEvents(c, i, fwd), IdleStates(c.nodes);
    assert es[..7] == es;
    EventsReach(c, i, fwd, 7);
    ProtocolMigrates(c, st, i, fwd);
    var w := Moment(c, i, fwd, 7);
    assert w.states == Protocol(st, i, Neighbour(i, fwd), BoundaryEntry(c.nodes[i], fwd));
    assert w.states == IdleStates(Migrate(c, i, fwd).nodes);
  }
}
