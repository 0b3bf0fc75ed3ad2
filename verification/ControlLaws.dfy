/** What the control node relies on between its requests: that store nodes are idle between commands,
    that every message fits, and what one turn of each of its loops achieves. */
module ControlLaws {
  import opened Bytes
  import opened Tables
  import opened HandleBuff
  import opened Records
  import opened StoreSpec
  import opened Wire
  import opened Balance
  import opened BalanceLaws
  import opened BalanceCost
  import opened Clusters
  import opened ClusterLaws
  import opened Refinement

  // ---------- an idle store node

  function Idle(t: Table<Bytes>): Node {
    Node(t, Weight(t), [])
  }

  function IdleStates(s: Shards): (r: seq<Node>)
    ensures |r| == |s| && forall i :: 0 <= i < |s| ==> r[i] == Idle(s[i])
  {
    seq(|s|, i requires 0 <= i < |s| => Idle(s[i]))
  }

  lemma StartTraced(s: Shards)
    ensures forall i :: 0 <= i < |s| ==> Traced(IdleStates(s)[i], [], IdleStates(s)[i])
  {
  }

  lemma {:induction false} PartWeight(s: Shards, i: nat)
    requires i < |s|
    ensures Weight(s[i]) <= Total(s)
  {
    if i > 0 {
      PartWeight(s[1..], i - 1);
    }
  }

  ghost predicate Room(c: Cluster) {
    Total(c.nodes) < 0x8000_0000 && |c.nodes| < 0x8000_0000
  }

  lemma RoomSize(c: Cluster)
    requires Room(c)
    ensures |c.nodes| < 0x8000_0000
  {
  }

  lemma IdleFits(c: Cluster, i: nat)
    requires Inv(c) && Room(c) && i < |c.nodes|
    ensures NodeFits(Idle(c.nodes[i]))
  {
    assert Holds(c.nodes[i], c.dir[i].value);
    PartWeight(c.nodes, i);
  }

  /** Logging and committing takes an idle node to an idle node: the counter stays the scan. */
  lemma IdleCommit(t: Table<Bytes>, r: Log)
    requires Sorted(t) && AllFit(t) && r.Fits() && (r.kind == PUT || r.kind == DELETE)
    ensures Commit(WriteLog(Idle(t), r)) == Idle(if r.kind == PUT then Put(t, r.key, r.value) else Delete(t, r.key))
  {
    hide Less, Put, Delete, WriteLog, Commit;
    LogThenCommit(Idle(t), r);
    if Has(t, r.key) {
      assert EntryFits(t[Seek(t, r.key)].key, t[Seek(t, r.key)].value);
    }
    CounterStep(Idle(t), r.key, r.value);
  }

  lemma LoggedFits(s: Node, r: Log)
    requires NodeFits(s)
    ensures NodeFits(WriteLog(s, r))
  {
  }

  // ---------- one migration, as requests

  function DeleteRecord(e: Entry<Bytes>): Log {
    Log(DELETE, e.key, [])
  }

  function PutRecord(e: Entry<Bytes>): Log {
    Log(PUT, e.key, e.value)
  }

  predicate EmptyOrKey(k: Bytes) {
    k == [] || KeyFits(k)
  }

  lemma PredictFits(t: Table<Bytes>, r: Log)
    requires AllFit(t) && KeyFits(r.key)
    ensures EmptyOrKey(Predict(t, r).0) && EmptyOrKey(Predict(t, r).1)
  {
    if t != [] {
      assert KeyFits(t[0].key) && KeyFits(t[|t| - 1].key);
      if |t| > 1 {
        assert KeyFits(t[1].key) && KeyFits(t[|t| - 2].key);
      }
    }
  }

  /** What the control node needs before it starts to migrate. */
  lemma MigrateReady(c: Cluster, i: nat, fwd: bool)
    requires Inv(c) && Room(c) && Neighboured(c.nodes, i, fwd) && |c.nodes[i]| >= 2
    ensures var e, j := BoundaryEntry(c.nodes[i], fwd), Neighbour(i, fwd);
            && EntryFits(e.key, e.value) && DeleteRecord(e).Fits() && PutRecord(e).Fits()
            && NodeFits(Idle(c.nodes[i])) && NodeFits(Idle(c.nodes[j]))
            && (var (lo, hi) := Predict(c.nodes[i], DeleteRecord(e)); EmptyOrKey(lo) && EmptyOrKey(hi))
            && (var (lo, hi) := Predict(c.nodes[j], PutRecord(e)); EmptyOrKey(lo) && EmptyOrKey(hi))
            && c.dir != [] && 0 <= Neighbour(Floor(c.dir, e.key), fwd) < |c.dir|
  {
    hide Less, Predict, Inv;
    var e, j := BoundaryEntry(c.nodes[i], fwd), Neighbour(i, fwd);
    IdleFits(c, i);
    IdleFits(c, j);
    BoundaryKey(c, i, fwd);
    PredictFits(c.nodes[i], DeleteRecord(e));
    PredictFits(c.nodes[j], PutRecord(e));
    InvSizes(c);
  }

  lemma InvSizes(c: Cluster)
    requires Inv(c)
    ensures |c.dir| == |c.nodes| > 0
  {
  }

  lemma MigrateNodes(c: Cluster, i: nat, fwd: bool)
    requires Neighboured(c.nodes, i, fwd) && c.nodes[i] != []
    ensures var e, j := BoundaryEntry(c.nodes[i], fwd), Neighbour(i, fwd);
            Migrate(c, i, fwd).nodes == c.nodes[i := Delete(c.nodes[i], e.key)][j := Put(c.nodes[j], e.key, e.value)]
  {
    hide Predict, MoveBoundary, Put, Delete;
  }

  lemma MigrateDir(c: Cluster, i: nat, fwd: bool, lo1: Bytes, hi1: Bytes, lo2: Bytes, hi2: Bytes)
    requires Neighboured(c.nodes, i, fwd) && c.nodes[i] != []
    requires var e, j := BoundaryEntry(c.nodes[i], fwd), Neighbour(i, fwd);
             (lo1, hi1) == Predict(c.nodes[i], DeleteRecord(e)) && (lo2, hi2) == Predict(c.nodes[j], PutRecord(e))
    ensures Migrate(c, i, fwd).dir
         == MoveBoundary(c.dir, BoundaryEntry(c.nodes[i], fwd).key, fwd, lo1, hi1, lo2, hi2)
  {
    hide Predict, MoveBoundary, Put, Delete;
  }

  /** LOG on the source, LOG on the target, COMMIT on the source, COMMIT on the target. */
  function Protocol(st: seq<Node>, i: nat, j: nat, e: Entry<Bytes>): seq<Node>
    requires i < |st| && j < |st|
  {
    var st1 := st[i := WriteLog(st[i], DeleteRecord(e))];
    var st2 := st1[j := WriteLog(st1[j], PutRecord(e))];
    var st3 := st2[i := Commit(st2[i])];
    st3[j := Commit(st3[j])]
  }

  /** The four requests of a migration take idle nodes to idle nodes holding the migrated data. */
  lemma ProtocolMigrates(c: Cluster, st: seq<Node>, i: nat, fwd: bool)
    requires Inv(c) && Neighboured(c.nodes, i, fwd) && |c.nodes[i]| >= 2 && |st| == |c.nodes|
    requires forall x :: 0 <= x < |st| ==> st[x] == Idle(c.nodes[x])
    ensures var st' := Protocol(st, i, Neighbour(i, fwd), BoundaryEntry(c.nodes[i], fwd));
            && |st'| == |st| && forall x :: 0 <= x < |st| ==> st'[x] == Idle(Migrate(c, i, fwd).nodes[x])
  {
    hide Less, Put, Delete, Migrate, WriteLog, Commit, Idle, Sorted;
    var e, j := BoundaryEntry(c.nodes[i], fwd), Neighbour(i, fwd);
    assert Holds(c.nodes[i], c.dir[i].value) && Holds(c.nodes[j], c.dir[j].value);
    BoundaryKey(c, i, fwd);
    IdleCommit(c.nodes[i], DeleteRecord(e));
    IdleCommit(c.nodes[j], PutRecord(e));
    MigrateNodes(c, i, fwd);
  }

  // ---------- one turn of each loop

  lemma {:induction false} TotalPrefix(s: Shards, i: nat)
    requires i < |s|
    ensures Total(s[..i + 1]) == Total(s[..i]) + Weight(s[i])
    ensures Total(s[..i + 1]) <= Total(s)
  {
    if i == 0 {
      assert s[..1] == [s[0]] && s[..0] == [] && [s[0]][1..] == [];
    } else {
      TotalPrefix(s[1..], i - 1);
      assert s[..i + 1][1..] == s[1..][..i] && s[..i][1..] == s[1..][..i - 1];
    }
  }

  lemma RoomKept(c: Cluster, d: Cluster)
    requires Room(c) && |d.nodes| == |c.nodes| && Flatten(d.nodes) == Flatten(c.nodes)
    ensures Room(d)
  {
    TotalIsWeight(c.nodes);
    TotalIsWeight(d.nodes);
  }

  /** One turn of an inner loop. */
  lemma DrainTurn(c: Cluster, i: nat, fwd: bool, q: Quota)
    requires Inv(c) && Room(c) && Neighboured(c.nodes, i, fwd) && !NotTooMuch(c.nodes[i], q)
    ensures |c.nodes[i]| >= 2
    ensures var d := Migrate(c, i, fwd);
            && Inv(d) && Room(d) && |d.nodes| == |c.nodes| && |d.nodes[i]| == |c.nodes[i]| - 1
            && Shaped(c) && Shaped(d) && Drained(c, i, fwd, q) == Drained(d, i, fwd, q)
            && DrainMoves(c.nodes, i, fwd, q) == 1 + DrainMoves(d.nodes, i, fwd, q)
  {
    hide Less, Migrate, Shift, Room;
    MigrationEnabled(c, i, fwd, q);
    MigrateExact(c, i, fwd);
    InvShaped(c);
    InvShaped(Migrate(c, i, fwd));
    MigrateShaped(c, i, fwd);
    ShiftKeepsSequence(c.nodes, i, fwd);
    RoomKept(c, Migrate(c, i, fwd));
  }

  /** One turn of the outer loop of either pass. */
  lemma PassTurn(c: Cluster, i: nat, fwd: bool, q: Quota)
    requires Inv(c) && Room(c) && Neighboured(c.nodes, i, fwd)
    ensures Shaped(c)
    ensures var d := Drained(c, i, fwd, q);
            && Inv(d) && Room(d) && |d.nodes| == |c.nodes| && d.nodes == Drain(c.nodes, i, fwd, q)
            && (fwd ==> ForwardPass(c, i, q) == ForwardPass(d, i + 1, q))
            && (!fwd ==> BackwardPass(c, i, q) == BackwardPass(d, i - 1, q))
  {
    hide Drained, Drain, Less, Room;
    InvShaped(c);
    DrainedRefines(c, i, fwd, q);
    DrainKeepsSequence(c.nodes, i, fwd, q);
    RoomKept(c, Drained(c, i, fwd, q));
  }

  // ---------- put and delete, as requests

  lemma RewrittenFits(c: Cluster, f: nat, k: Bytes)
    requires Inv(c) && f < |c.dir| && KeyFits(k)
    ensures var o := c.dir[f].value;
            KeyFits(o.min) && KeyFits(o.max) && KeyFits(Min(o.min, k)) && KeyFits(Max(o.max, k))
  {
    assert Announces(c.dir[f], f);
  }

  /** What the control node needs before it puts, and what the put amounts to. */
  lemma PutTurn(c: Cluster, k: Bytes, v: Bytes)
    requires Inv(c) && Room(c) && EntryFits(k, v)
    ensures var f := Floor(c.dir, k);
            && f < |c.dir| == |c.nodes| && c.dir[f].value.fd == f
            && PutRecord(Entry(k, v)).Fits() && NodeFits(Idle(c.nodes[f]))
            && NodeFits(WriteLog(Idle(c.nodes[f]), PutRecord(Entry(k, v))))
            && Commit(WriteLog(Idle(c.nodes[f]), PutRecord(Entry(k, v)))) == Idle(Put(c.nodes[f], k, v))
            && Routable(c, k) && Inv(PutStep(c, k, v))
            && PutStep(c, k, v).nodes == c.nodes[f := Put(c.nodes[f], k, v)]
  {
    hide Less, Put, WriteLog, Commit, Rewrite, Sorted;
    var f := Floor(c.dir, k);
    PutKeepsInv(c, k, v);
    RouteSplits(c, k);
    assert Holds(c.nodes[f], c.dir[f].value);
    IdleFits(c, f);
    LoggedFits(Idle(c.nodes[f]), PutRecord(Entry(k, v)));
    IdleCommit(c.nodes[f], PutRecord(Entry(k, v)));
  }

  lemma DeleteTurn(c: Cluster, k: Bytes)
    requires Inv(c) && Room(c) && KeyFits(k)
    ensures var f, r := Floor(c.dir, k), Log(DELETE, k, []);
            && f < |c.dir| == |c.nodes| && c.dir[f].value.fd == f
            && r.Fits() && NodeFits(Idle(c.nodes[f])) && NodeFits(WriteLog(Idle(c.nodes[f]), r))
            && Commit(WriteLog(Idle(c.nodes[f]), r)) == Idle(Delete(c.nodes[f], k))
            && (var lo, o := Predict(c.nodes[f], r).0, c.dir[f].value;
                Min(o.min, if lo == [] then o.min else lo) == o.min)
            && Routable(c, k) && Inv(DeleteStep(c, k))
            && DeleteStep(c, k).nodes == c.nodes[f := Delete(c.nodes[f], k)]
  {
    hide Less, Delete, WriteLog, Commit, Rewrite, Predict, Sorted;
    var f, r := Floor(c.dir, k), Log(DELETE, k, []);
    DeleteKeepsInv(c, k);
    RouteSplits(c, k);
    assert Holds(c.nodes[f], c.dir[f].value);
    IdleFits(c, f);
    LoggedFits(Idle(c.nodes[f]), r);
    IdleCommit(c.nodes[f], r);
    DeletedMin(c.nodes[f], c.dir[f].value, k);
  }

  // ---------- room for a list of commands

  /** The sizes stored stay within an int in every state between the commands of the list. */
  ghost predicate RoomFor(c: Cluster, cmds: seq<Command>) {
    && Shaped(c) && |c.nodes| < 0x8000_0000
    && forall i :: 0 <= i <= |cmds| ==> Total(After(c, cmds[..i]).nodes) < 0x8000_0000
  }

  lemma RoomNow(c: Cluster, cmds: seq<Command>)
    requires RoomFor(c, cmds)
    ensures Room(c)
  {
    hide Execute, Shaped;
    assert cmds[..0] == [] && After(c, cmds[..0]) == c;
  }

  /** What is enough for a list is enough for its first command, and then for the rest. */
  lemma RoomNext(c: Cluster, cmds: seq<Command>)
    requires RoomFor(c, cmds) && cmds != []
    ensures RoomFor(c, [cmds[0]]) && RoomFor(Execute(c, cmds[0]), cmds[1..])
  {
    hide Execute, Shaped;
    var d, rest := Execute(c, cmds[0]), cmds[1..];
    forall i | 0 <= i <= |rest|
      ensures Total(After(d, rest[..i]).nodes) < 0x8000_0000
    {
      assert cmds[..i + 1][1..] == rest[..i];
      assert After(c, cmds[..i + 1]) == After(d, rest[..i]);
    }
    assert [cmds[0]][..0] == cmds[..0] && [cmds[0]][..1] == cmds[..1];
  }

  lemma RoomAfter(c: Cluster, cmd: Command)
    requires RoomFor(c, [cmd])
    ensures Room(c) && Room(Execute(c, cmd))
  {
    hide Execute, Shaped;
    RoomNow(c, [cmd]);
    RoomNext(c, [cmd]);
    assert [cmd][1..] == [];
    RoomNow(Execute(c, cmd), []);
  }

  /** Migrating stores nothing new, so what fits after re_balance fits before it. */
  lemma RoomBefore(c: Cluster)
    requires Inv(c) && Shaped(c) && Room(ReBalance(c))
    ensures Room(c)
  {
    hide Less, Inv, Shaped, ReBalance, Settle;
    ReBalanceRefines(c);
    InvSizes(c);
    SettleKeepsSequence(c.nodes);
    RoomKept(ReBalance(c), c);
  }

  lemma PutReady(c: Cluster, k: Bytes, v: Bytes)
    requires Inv(c) && RoomFor(c, [PutCmd(k, v)]) && EntryFits(k, v)
    ensures Room(c) && Routable(c, k) && Inv(PutStep(c, k, v)) && Room(PutStep(c, k, v)) && Shaped(PutStep(c, k, v))
  {
    hide Less, Inv, PutStep, Shaped, ReBalance, Room, RoomFor, Commit, WriteLog, Predict;
    RoomAfter(c, PutCmd(k, v));
    PutTurn(c, k, v);
    InvShaped(PutStep(c, k, v));
    RoomBefore(PutStep(c, k, v));
  }

  lemma DeleteReady(c: Cluster, k: Bytes)
    requires Inv(c) && RoomFor(c, [DelCmd(k)]) && KeyFits(k)
    ensures Room(c) && Routable(c, k) && Inv(DeleteStep(c, k)) && Room(DeleteStep(c, k)) && Shaped(DeleteStep(c, k))
  {
    hide Less, Inv, DeleteStep, Shaped, ReBalance, Room, RoomFor, Commit, WriteLog, Predict;
    RoomAfter(c, DelCmd(k));
    DeleteTurn(c, k);
    InvShaped(DeleteStep(c, k));
    RoomBefore(DeleteStep(c, k));
  }

  lemma GetReady(c: Cluster, k: Bytes)
    requires Inv(c) && RoomFor(c, [GetCmd(k)])
    ensures var f := Floor(c.dir, k);
            Room(c) && f < |c.nodes| && c.dir[f].value.fd == f && NodeFits(Idle(c.nodes[f]))
  {
    hide Shaped, NodeFits, Execute;
    RoomNow(c, [GetCmd(k)]);
    RouteSplits(c, k);
    IdleFits(c, Floor(c.dir, k));
  }

  /** One turn of the console loop. */
  lemma RunTurn(c: Cluster, cmds: seq<Command>, i: nat)
    requires Inv(c) && i < |cmds| && CommandFits(cmds[i]) && RoomFor(c, cmds[i..])
    ensures Shaped(c) && Room(c) && Inv(Execute(c, cmds[i]))
    ensures RoomFor(Execute(c, cmds[i]), cmds[i + 1..]) && RoomFor(c, [cmds[i]])
    ensures After(c, cmds[i..]) == After(Execute(c, cmds[i]), cmds[i + 1..])
    ensures Answers(c, cmds[i..]) == [Printed(c, cmds[i])] + Answers(Execute(c, cmds[i]), cmds[i + 1..])
  {
    hide Less, Inv, Execute, Printed, Shaped, RoomFor, Room;
    assert cmds[i..][1..] == cmds[i + 1..];
    RoomNow(c, cmds[i..]);
    RoomNext(c, cmds[i..]);
    StepRefines(c, cmds[i]);
  }
}
