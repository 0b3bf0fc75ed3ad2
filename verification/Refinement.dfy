/** The cluster seen from the console: it answers like one map. */
module Refinement {
  import opened Bytes
  import opened Tables
  import opened HandleBuff
  import opened Records
  import opened StoreSpec
  import opened Wire
  import opened Balance
  import opened BalanceLaws
  import opened Clusters
  import opened ClusterLaws

  // ---------- re_balance keeps the invariant and refines the passes over bare data

  lemma InvShaped(c: Cluster)
    requires Inv(c)
    ensures Shaped(c)
  {
    forall i | 0 <= i < |c.nodes|
      ensures Sorted(c.nodes[i]) && 0 <= c.dir[i].value.fd < |c.nodes|
    {
      assert Announces(c.dir[i], i) && Holds(c.nodes[i], c.dir[i].value);
    }
  }

  /** Whenever a pass migrates, the boundary entry exists, the directory routes its key to the source and
      has an entry for the neighbour next to it, and the source is left with at least one entry. */
  lemma MigrationEnabled(c: Cluster, i: nat, fwd: bool, q: Quota)
    requires Inv(c) && Neighboured(c.nodes, i, fwd) && !NotTooMuch(c.nodes[i], q)
    ensures var e := BoundaryEntry(c.nodes[i], fwd);
            && |c.nodes[i]| >= 2 && Find(c.nodes[i], e.key) == Some(e.value)
            && Floor(c.dir, e.key) == i && 0 <= Neighbour(i, fwd) < |c.dir|
            && Inv(Migrate(c, i, fwd)) && Migrate(c, i, fwd).nodes[i] != []
  {
    var e := BoundaryEntry(c.nodes[i], fwd);
    assert Holds(c.nodes[i], c.dir[i].value);
    FindExact(c.nodes[i], e.key, e.value);
    BoundaryKey(c, i, fwd);
    MigrateExact(c, i, fwd);
  }

  lemma {:induction false} DrainedRefines(c: Cluster, i: nat, fwd: bool, q: Quota)
    requires Inv(c) && Shaped(c) && Neighboured(c.nodes, i, fwd)
    ensures Inv(Drained(c, i, fwd, q)) && Drained(c, i, fwd, q).nodes == Drain(c.nodes, i, fwd, q)
    decreases |c.nodes[i]|
  {
    if !NotTooMuch(c.nodes[i], q) {
      MigrateExact(c, i, fwd);
      InvShaped(Migrate(c, i, fwd));
      DrainedRefines(Migrate(c, i, fwd), i, fwd, q);
    }
  }

  lemma {:induction false} ForwardRefines(c: Cluster, i: nat, q: Quota)
    requires Inv(c) && Shaped(c)
    ensures Inv(ForwardPass(c, i, q)) && ForwardPass(c, i, q).nodes == Forward(c.nodes, i, q)
    decreases |c.nodes| - i
  {
    hide Drained;
    if i + 1 < |c.nodes| {
      var d := Drained(c, i, true, q);
      DrainedRefines(c, i, true, q);
      ForwardRefines(d, i + 1, q);
    }
  }

  lemma {:induction false} BackwardRefines(c: Cluster, i: nat, q: Quota)
    requires Inv(c) && Shaped(c) && i < |c.nodes|
    ensures Inv(BackwardPass(c, i, q)) && BackwardPass(c, i, q).nodes == Backward(c.nodes, i, q)
    decreases i
  {
    hide Drained;
    if i > 0 {
      var d := Drained(c, i, false, q);
      DrainedRefines(c, i, false, q);
      BackwardRefines(d, i - 1, q);
    }
  }

  /** Through the log protocol and the directory edits, re_balance does to the data exactly what the
      boundary-shifting passes do. */
  lemma ReBalanceRefines(c: Cluster)
    requires Inv(c)
    ensures Shaped(c) && ReBalance(c).nodes == Settle(c.nodes)
  {
    hide ForwardPass, BackwardPass, Forward, Backward, Inv, Shaped;
    InvShaped(c);
    var q := QuotaOf(c.nodes);
    ForwardRefines(c, 0, q);
    BackwardRefines(ForwardPass(c, 0, q), |c.nodes| - 1, q);
  }

  /** The directory and the data are still in step after re_balance. */
  lemma ReBalanceKeepsInv(c: Cluster)
    requires Inv(c) && Shaped(c)
    ensures Inv(ReBalance(c))
  {
    hide ForwardPass, BackwardPass, Forward, Backward, Inv, Sorted;
    var q := QuotaOf(c.nodes);
    ForwardRefines(c, 0, q);
    BackwardRefines(ForwardPass(c, 0, q), |c.nodes| - 1, q);
  }

  // ---------- the data of all nodes as one sorted table

  lemma {:induction false} FlattenBelow(s: Shards, k: Bytes)
    requires forall i :: 0 <= i < |s| ==> AllBelow(s[i], k)
    ensures AllBelow(Flatten(s), k)
  {
    if s != [] {
      FlattenBelow(s[1..], k);
    }
  }

  lemma {:induction false} FlattenAbove(s: Shards, k: Bytes)
    requires forall i :: 0 <= i < |s| ==> AllAbove(s[i], k)
    ensures AllAbove(Flatten(s), k)
  {
    if s != [] {
      FlattenAbove(s[1..], k);
    }
  }

  lemma {:induction false} FlattenSorted(s: Shards)
    requires forall i :: 0 <= i < |s| ==> Sorted(s[i])
    requires forall i, j, x :: 0 <= i < j < |s| && 0 <= x < |s[i]| ==> AllAbove(s[j], s[i][x].key)
    ensures Sorted(Flatten(s))
  {
    if s != [] {
      FlattenSorted(s[1..]);
      forall x | 0 <= x < |s[0]|
        ensures AllAbove(Flatten(s[1..]), s[0][x].key)
      {
        FlattenAbove(s[1..], s[0][x].key);
      }
    }
  }

  lemma ContentSorted(c: Cluster)
    requires Inv(c)
    ensures Sorted(Flatten(c.nodes))
  {
    InvShaped(c);
    forall i, j, x | 0 <= i < j < |c.nodes| && 0 <= x < |c.nodes[i]|
      ensures AllAbove(c.nodes[j], c.nodes[i][x].key)
    {
      HeldKeyRoutes(c, i, x);
      RouteSplits(c, c.nodes[i][x].key);
    }
    FlattenSorted(c.nodes);
  }

  /** Where a key is routed, looking it up, putting it and deleting it act on the whole sequence. */
  lemma RoutedIsGlobal(c: Cluster, k: Bytes, v: Bytes)
    requires Inv(c)
    ensures var f := Floor(c.dir, k);
            && f < |c.nodes| && c.dir[f].value.fd == f
            && Find(c.nodes[f], k) == Find(Flatten(c.nodes), k)
            && Flatten(c.nodes[f := Put(c.nodes[f], k, v)]) == Put(Flatten(c.nodes), k, v)
            && Flatten(c.nodes[f := Delete(c.nodes[f], k)]) == Delete(Flatten(c.nodes), k)
  {
    RouteSplits(c, k);
    var f := Floor(c.dir, k);
    var a, b := c.nodes[..f], c.nodes[f + 1..];
    FlattenBelow(a, k);
    FlattenAbove(b, k);
    FlattenAround(c.nodes, f);
    FindMiddle(Flatten(a), c.nodes[f], Flatten(b), k);
    PutMiddle(Flatten(a), c.nodes[f], Flatten(b), k, v);
    DeleteMiddle(Flatten(a), c.nodes[f], Flatten(b), k);
    FlattenChanged(c.nodes, f, Put(c.nodes[f], k, v));
    FlattenChanged(c.nodes, f, Delete(c.nodes[f], k));
  }

  lemma FlattenChanged(s: Shards, f: nat, t: Table<Bytes>)
    requires f < |s|
    ensures Flatten(s[f := t]) == Flatten(s[..f]) + t + Flatten(s[f + 1..])
  {
    FlattenAround(s[f := t], f);
    assert s[f := t][..f] == s[..f] && s[f := t][f + 1..] == s[f + 1..];
  }

  // ---------- commands

  datatype Command = PutCmd(key: Bytes, value: Bytes) | GetCmd(key: Bytes) | DelCmd(key: Bytes)

  /** Console words are NUL-free and not empty, except that del checks for an empty word itself. */
  predicate CommandFits(cmd: Command) {
    match cmd
    case PutCmd(k, v) => EntryFits(k, v)
    case GetCmd(k) => LookupFits(k)
    case DelCmd(k) => k == [] || KeyFits(k)
  }

  ghost function Execute(c: Cluster, cmd: Command): (r: Cluster)
    requires Shaped(c)
    ensures Shaped(r) && |r.nodes| == |c.nodes|
  {
    match cmd
    case PutCmd(k, v) => StepsShaped(c, k, v); ReBalance(PutStep(c, k, v))
    case GetCmd(_) => c
    case DelCmd(k) => StepsShaped(c, k, []); if k == [] then c else ReBalance(DeleteStep(c, k))
  }

  /** What a get prints; the other commands print no result. */
  ghost function Printed(c: Cluster, cmd: Command): Option<Bytes>
    requires Shaped(c)
  {
    if cmd.GetCmd? then Some(GetStep(c, cmd.key)) else None
  }

  ghost function After(c: Cluster, cmds: seq<Command>): (r: Cluster)
    requires Shaped(c)
    ensures Shaped(r)
    decreases cmds
  {
    if cmds == [] then c else After(Execute(c, cmds[0]), cmds[1..])
  }

  ghost function Answers(c: Cluster, cmds: seq<Command>): seq<Option<Bytes>>
    requires Shaped(c)
    decreases cmds
  {
    if cmds == [] then [] else [Printed(c, cmds[0])] + Answers(Execute(c, cmds[0]), cmds[1..])
  }

  // ---------- the specification: one map

  function MapExecute(m: map<Bytes, Bytes>, cmd: Command): map<Bytes, Bytes> {
    match cmd
    case PutCmd(k, v) => m[k := v]
    case GetCmd(_) => m
    case DelCmd(k) => m - {k}
  }

  function MapPrinted(m: map<Bytes, Bytes>, cmd: Command): Option<Bytes> {
    if cmd.GetCmd? then Some(if cmd.key in m then m[cmd.key] else []) else None
  }

  function MapAnswers(m: map<Bytes, Bytes>, cmds: seq<Command>): seq<Option<Bytes>>
    decreases cmds
  {
    if cmds == [] then [] else [MapPrinted(m, cmds[0])] + MapAnswers(MapExecute(m, cmds[0]), cmds[1..])
  }

  function MapAfter(m: map<Bytes, Bytes>, cmds: seq<Command>): map<Bytes, Bytes>
    decreases cmds
  {
    if cmds == [] then m else MapAfter(MapExecute(m, cmds[0]), cmds[1..])
  }

  /** What the cluster stores, wherever it stores it. */
  ghost function Content(c: Cluster): map<Bytes, Bytes> {
    ToMap(Flatten(c.nodes))
  }

  lemma NoEmptyKey(c: Cluster)
    requires Inv(c)
    ensures [] !in Content(c)
  {
    ContentSorted(c);
    RoutedIsGlobal(c, [], []);
    ToMapFind(Flatten(c.nodes), []);
    var f := Floor(c.dir, []);
    assert Holds(c.nodes[f], c.dir[f].value);
  }

  lemma ReBalanceKeepsContent(c: Cluster)
    requires Inv(c)
    ensures Shaped(c) && Inv(ReBalance(c)) && Content(ReBalance(c)) == Content(c)
  {
    ReBalanceRefines(c);
    ReBalanceKeepsInv(c);
    SettleKeepsSequence(c.nodes);
  }

  lemma PutRefines(c: Cluster, k: Bytes, v: Bytes)
    requires Inv(c) && EntryFits(k, v)
    ensures Routable(c, k) && Inv(PutStep(c, k, v))
    ensures Content(PutStep(c, k, v)) == Content(c)[k := v]
  {
    hide Inv, Put, Delete, Rewrite, ToMap;
    ContentSorted(c);
    PutKeepsInv(c, k, v);
    RoutedIsGlobal(c, k, v);
    PutIsUpdate(Flatten(c.nodes), k, v);
  }

  lemma DeleteRefines(c: Cluster, k: Bytes)
    requires Inv(c) && KeyFits(k)
    ensures Routable(c, k) && Inv(DeleteStep(c, k))
    ensures Content(DeleteStep(c, k)) == Content(c) - {k}
  {
    hide Inv, Put, Delete, Rewrite, ToMap;
    ContentSorted(c);
    DeleteKeepsInv(c, k);
    RoutedIsGlobal(c, k, []);
    DeleteIsRemoval(Flatten(c.nodes), k);
  }

  lemma GetRefines(c: Cluster, k: Bytes)
    requires Inv(c)
    ensures Routable(c, k) && GetStep(c, k) == if k in Content(c) then Content(c)[k] else []
  {
    hide ToMap, Less;
    ContentSorted(c);
    RoutedIsGlobal(c, k, []);
    ToMapFind(Flatten(c.nodes), k);
  }

  /** One command: the invariant is kept, the stored map changes as the specification's does, and a get
      prints what the specification prints. */
  lemma StepRefines(c: Cluster, cmd: Command)
    requires Inv(c) && CommandFits(cmd)
    ensures Shaped(c) && Inv(Execute(c, cmd))
    ensures Content(Execute(c, cmd)) == MapExecute(Content(c), cmd)
    ensures Printed(c, cmd) == MapPrinted(Content(c), cmd)
  {
    hide Inv, Shaped, Content, PutStep, DeleteStep, GetStep, ReBalance;
    InvShaped(c);
    match cmd
    case PutCmd(k, v) =>
      PutRefines(c, k, v);
      ReBalanceKeepsContent(PutStep(c, k, v));
    case GetCmd(k) =>
      GetRefines(c, k);
    case DelCmd(k) =>
      if k == [] {
        NoEmptyKey(c);
      } else {
        DeleteRefines(c, k);
        ReBalanceKeepsContent(DeleteStep(c, k));
      }
  }

  /** Over any run of commands the cluster prints what one sequential map prints: routing, logging,
      committing and migrating do not show. (Shaped follows from Inv; see InvShaped.) */
  lemma {:induction false} RunRefinesMap(c: Cluster, cmds: seq<Command>)
    requires Inv(c) && Shaped(c) && forall i :: 0 <= i < |cmds| ==> CommandFits(cmds[i])
    ensures Answers(c, cmds) == MapAnswers(Content(c), cmds)
    decreases cmds
  {
    if cmds != [] {
      StepRefines(c, cmds[0]);
      RunRefinesMap(Execute(c, cmds[0]), cmds[1..]);
    }
  }

  /** The invariant holds in every state between commands, and what is stored is what the map holds. */
  lemma {:induction false} RunKeepsInv(c: Cluster, cmds: seq<Command>)
    requires Inv(c) && forall i :: 0 <= i < |cmds| ==> CommandFits(cmds[i])
    ensures Shaped(c) && Inv(After(c, cmds)) && Content(After(c, cmds)) == MapAfter(Content(c), cmds)
    decreases cmds
  {
    InvShaped(c);
    if cmds != [] {
      StepRefines(c, cmds[0]);
      RunKeepsInv(Execute(c, cmds[0]), cmds[1..]);
    }
  }

  // ---------- re_balance, in one statement

  /** What one call of re_balance achieves on a cluster in a state it can reach: the invariant and the
      stored map are kept; every node but the first ends within the limit; all do if and only if the
      sequence of entries can be cut into that many parts that are; and a second call moves nothing
      that stays moved. */
  lemma ReBalanceAchieves(c: Cluster)
    requires Inv(c)
    ensures Shaped(c)
    ensures var r, q := ReBalance(c), QuotaOf(c.nodes);
            && Inv(r) && Content(r) == Content(c)
            && Fine(r.nodes, 1, |r.nodes|, q)
            && (Fine(r.nodes, 0, |r.nodes|, q) <==> exists cut :: Recut(c.nodes, cut) && Fine(cut, 0, |cut|, q))
            && ReBalance(r).nodes == r.nodes
  {
    hide Less, Inv, ReBalance, Settle;
    ReBalanceKeepsContent(c);
    ReBalanceRefines(c);
    ReBalanceRefines(ReBalance(c));
    SettleOutcome(c.nodes);
    BalancedIffPossible(c.nodes);
    SettleIdempotent(c.nodes);
  }
}
