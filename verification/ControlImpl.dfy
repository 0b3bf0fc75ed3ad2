/** The control node: it talks to the store nodes in whole messages built in its send buffer, and edits
    its directory database in place. */
module ControlImpls {
  import opened Bytes
  import opened Tables
  import opened HandleBuff
  import opened Records
  import opened DbHandles
  import opened StoreSpec
  import opened Wire
  import opened StoreImpls
  import opened Balance
  import opened Clusters
  import opened BalanceCost
  import opened ClusterLaws
  import opened Refinement
  import opened DirectoryDb
  import opened ControlLaws
  import opened Moments
  import opened Seed
  import opened Limits
  import opened Writes

  class ControlImpl {
    const metaDb: DbHandle
    const nodes: seq<StoreImpl>
    const sendBuff: array<byte>
    const receiveBuff: array<byte>
    ghost const nodesRepr: set<object>
    ghost var cluster: Cluster
    ghost var states: seq<Node>
    ghost const initial: seq<Node>
    ghost var trace: seq<seq<Request>>
    ghost var events: seq<Event>

    ghost function Repr(): set<object> {
      {this, metaDb, sendBuff, receiveBuff} + nodesRepr
    }

    /** No two nodes share an object, and none shares one with the control node. */
    ghost predicate Separate() {
      && (forall i, j :: 0 <= i < |nodes| && 0 <= j < |nodes| && i != j ==> nodes[i].Repr() !! nodes[j].Repr())
      && (forall i :: 0 <= i < |nodes| ==> nodes[i].Repr() <= nodesRepr)
      && {this, metaDb, sendBuff, receiveBuff} !! nodesRepr
      && sendBuff != receiveBuff && sendBuff.Length == receiveBuff.Length == MAXLINE
    }

    /** The store nodes are in the recorded states, and each got there by the recorded requests, among
        which a record is logged only while none is pending. */
    ghost predicate Wired()
      reads this`states, this`trace, nodesRepr
    {
      && Separate() && |states| == |trace| == |initial| == |nodes|
      && (forall i :: 0 <= i < |nodes| ==> nodes[i].Valid() && nodes[i].State() == states[i])
      && forall i :: 0 <= i < |nodes| ==> Traced(initial[i], trace[i], states[i])
    }

    /** Between commands every log is empty, every counter is the scan of its data, and the directory
        database holds the directory in encoded form. */
    ghost predicate Valid()
      reads Repr()
    {
      && Wired() && |cluster.nodes| == |nodes|
      && (forall i :: 0 <= i < |nodes| ==> states[i] == Idle(cluster.nodes[i]))
      && metaDb.table == EncDir(cluster.dir)
    }

    /** Connects to store nodes that are idle. An empty directory database is seeded with one entry per
        node; one that already has entries is kept as it is. */
    constructor (metaDb: DbHandle, nodes: seq<StoreImpl>, ghost dir: Directory, ghost shards: Shards)
      requires 1 <= |nodes| < 0x8000_0000 && |shards| == |nodes|
      requires metaDb.Valid() && metaDb.table == EncDir(dir)
      requires forall i :: 0 <= i < |nodes| ==>
                 nodes[i].Valid() && nodes[i].State() == Idle(shards[i]) && metaDb !in nodes[i].Repr()
      requires forall i, j :: 0 <= i < |nodes| && 0 <= j < |nodes| && i != j ==> nodes[i].Repr() !! nodes[j].Repr()
      modifies metaDb
      ensures Valid() && this.metaDb == metaDb && this.nodes == nodes
      ensures fresh(sendBuff) && fresh(receiveBuff) && nodesRepr == Footprint(nodes)
      ensures cluster == Cluster(if dir == [] then SeedDirectory(|nodes|) else dir, shards)
    {
      hide EncDir, SeedDirectory, Idle, IdleStates, StoreImpl.Repr, StoreImpl.Valid, StoreImpl.State, Sorted, Less;
      hide EncEntry, EncMeta, SeedEntry, Traced;
      forall i | 0 <= i < |nodes|
        ensures forall o :: o in nodes[i].Repr() ==> allocated(o)
      {
        ReprAllocated(nodes[i]);
      }
      var buff := new byte[MAXLINE];
      SeedMetaDb(metaDb, |nodes|, buff, dir);
      assert forall i :: 0 <= i < |nodes| ==> nodes[i].Valid() && nodes[i].State() == Idle(shards[i]);
      StartTraced(shards);
      this.metaDb := metaDb;
      this.nodes := nodes;
      sendBuff := buff;
      receiveBuff := new byte[MAXLINE];
      nodesRepr := Footprint(nodes);
      cluster := Cluster(if dir == [] then SeedDirectory(|nodes|) else dir, shards);
      states := IdleStates(shards);
      initial := IdleStates(shards);
      trace := seq(|nodes|, _ => []);
      events := [];
    }

    /** Every sequence of requests this object has sent a node keeps the discipline, and so the node's log
        has never held more than the record last sent. */
    lemma TracesDisciplined(i: nat, n: nat)
      requires Wired() && i < |nodes| && n <= |trace[i]|
      ensures Disciplined(trace[i]) && states[i] == RunRequests(initial[i], trace[i])
      ensures var s, r := RunRequests(initial[i], trace[i][..n]), Pending(trace[i][..n]);
              s.log == (match r case None => [] case Some(q) => [Entry(EncLog(q), [])])
    {
      forall x | 0 <= x < n
        ensures trace[i][..n][..x] == trace[i][..x]
      {
      }
      OnePendingRecord(initial[i], trace[i][..n]);
    }

    static ghost function Footprint(nodes: seq<StoreImpl>): set<object> {
      set i, o | 0 <= i < |nodes| && o in nodes[i].Repr() :: o
    }

    static lemma ReprAllocated(n: StoreImpl)
      ensures forall o :: o in n.Repr() ==> allocated(o)
    {
    }

    /** The constructor's loop over the nodes. */
    static method SeedMetaDb(metaDb: DbHandle, n: nat, buff: array<byte>, ghost dir: Directory)
      requires n < 0x8000_0000 && buff.Length == MAXLINE
      requires metaDb.Valid() && metaDb.table == EncDir(dir)
      modifies metaDb, buff
      ensures metaDb.Valid() && metaDb.table == EncDir(if dir == [] then SeedDirectory(n) else dir)
    {
      hide EncDir, Put, ToString;
      var size := metaDb.GetNum();
      assert size == |dir|;
      for i := 0 to n
        invariant metaDb.Valid()
        invariant metaDb.table == EncDir(if dir == [] then SeedDirectory(i) else dir)
      {
        if size == 0 {
          var meta := Meta(ToString(i + 1), ToString(i + 1), i);
          SeedEntryShort(i);
          var len := meta.ToSlice(buff);
          assert buff[..len] == buff[..][0..0 + len];
          metaDb.Put(meta.min, buff[..len]);
          EncDirPut(SeedDirectory(i), SeedEntry(i).key, SeedEntry(i).value);
        }
      }
    }

    lemma WiredApart()
      requires Wired()
      ensures {this, metaDb, sendBuff, receiveBuff} !! nodesRepr
      ensures |states| == |nodes| && sendBuff != receiveBuff && sendBuff.Length == receiveBuff.Length == MAXLINE
    {
    }

    // ---------- one exchange

    /** Node i serves one message; the other nodes do not notice. */
    method Send(i: nat, msg: Bytes, ghost q: Request) returns (reply: Bytes)
      requires Wired() && i < |nodes| && NodeFits(states[i]) && RequestFits(q) && msg == EncRequest(q)
      requires Loggable(q) && (q.LogReq? ==> states[i].log == [])
      modifies this`states, this`trace, this`events, nodes[i].Repr()
      ensures Wired() && states == old(states)[i := Handle(old(states[i]), q)]
      ensures trace == old(trace)[i := old(trace[i]) + [q]] && events == old(events) + [Sent(i, q)]
      ensures reply == EncReply(Answer(old(states[i]), q))
    {
      hide Handle, Answer, EncReply, EncRequest, Traced, NodeFits;
      reply := nodes[i].Serve(msg, q);
      forall j | 0 <= j < |nodes| && j != i
        ensures nodes[j].Valid() && nodes[j].State() == states[j]
      {
        assert nodes[j].Repr() !! nodes[i].Repr();
        assert old(nodes[j].Valid() && nodes[j].State() == states[j]);
        assert nodes[j].Valid();
      }
      TraceStep(initial[i], trace[i], states[i], q);
      states := states[i := Handle(states[i], q)];
      trace := trace[i := trace[i] + [q]];
      events := events + [Sent(i, q)];
    }

    /** Sends the first len bytes of the send buffer to node i and receives its reply. */
    method Exchange(i: nat, len: nat, ghost q: Request)
      requires Wired() && i < |nodes| && NodeFits(states[i]) && RequestFits(q)
      requires len <= MAXLINE && sendBuff[..len] == EncRequest(q)
      requires Loggable(q) && (q.LogReq? ==> states[i].log == [])
      modifies this`states, this`trace, this`events, receiveBuff, nodesRepr
      ensures Wired() && states == old(states)[i := Handle(old(states[i]), q)]
      ensures trace == old(trace)[i := old(trace[i]) + [q]] && events == old(events) + [Sent(i, q)]
      ensures var a := Answer(old(states[i]), q); ReplyFits(a) && DecReply(q, receiveBuff[..]) == Some(a)
    {
      hide Handle, Answer, EncReply, DecReply, EncRequest;
      ghost var a := Answer(states[i], q);
      AnswersFit(states[i], q);
      var reply := Send(i, sendBuff[..len], q);
      ReplyRoundTrip(q, a, []);
      ghost var stale := receiveBuff[|reply|..];
      CopyTo(receiveBuff, 0, reply);
      assert receiveBuff[..] == reply + stale;
      ReplyRoundTrip(q, a, stale);
    }

    /** Sends a request that is only its command word. */
    method Ask(i: nat, word: Bytes, ghost q: Request)
      requires Wired() && i < |nodes| && NodeFits(states[i])
      requires !q.LogReq? && !q.Get? && word == Word(q)
      modifies this`states, this`trace, this`events, sendBuff, receiveBuff, nodesRepr
      ensures Wired() && states == old(states)[i := Handle(old(states[i]), q)]
      ensures trace == old(trace)[i := old(trace[i]) + [q]] && events == old(events) + [Sent(i, q)]
      ensures var a := Answer(old(states[i]), q); ReplyFits(a) && DecReply(q, receiveBuff[..]) == Some(a)
    {
      hide Handle, Answer, DecReply, Word;
      var next, len := InsertStr(sendBuff, 0, word, 0);
      assert sendBuff[..len] == sendBuff[..][0..0 + len];
      assert EncRequest(q) == EncStr(word) + [];
      Exchange(i, len, q);
    }

    method GetSize(i: nat) returns (size: int)
      requires Wired() && i < |nodes| && NodeFits(states[i])
      modifies this`states, this`trace, this`events, sendBuff, receiveBuff, nodesRepr
      ensures Wired() && states == old(states) && size == states[i].size
    {
      hide DecInt, StoreImpl.Valid, StoreImpl.State;
      Ask(i, SIZE_WORD, Size);
      assert states == old(states);
      var next;
      size, next := GetInt(receiveBuff, 0);
      assert receiveBuff[0..] == receiveBuff[..];
    }

    method GetStoreLessOrEqualOne(i: nat) returns (few: bool)
      requires Wired() && i < |nodes| && NodeFits(states[i])
      modifies this`states, this`trace, this`events, sendBuff, receiveBuff, nodesRepr
      ensures Wired() && states == old(states) && few == (|states[i].data| <= 1)
    {
      hide DecInt, StoreImpl.Valid, StoreImpl.State;
      Ask(i, LESS_OR_EQUAL_ONE_WORD, LessOrEqualOne);
      assert states == old(states);
      var n, next := GetInt(receiveBuff, 0);
      assert receiveBuff[0..] == receiveBuff[..];
      few := n != 0;
    }

    /** The program's test on node i; it asks for the count only if the size alone does not decide. */
    method NotTooMuch(i: nat, q: Quota) returns (fine: bool)
      requires Wired() && i < |nodes| && NodeFits(states[i]) && Counted(states[i])
      modifies this`states, this`trace, this`events, sendBuff, receiveBuff, nodesRepr
      ensures Wired() && states == old(states) && fine == Balance.NotTooMuch(states[i].data, q)
    {
      hide StoreImpl.Valid, StoreImpl.State;
      var s := GetSize(i);
      if s as real / (q.total as real + 0.000001) <= q.perfect + 0.01 {
        return true;
      }
      fine := GetStoreLessOrEqualOne(i);
    }

    method ReadPair() returns (x: Bytes, y: Bytes)
      requires DecPair(receiveBuff[..]).Some?
      ensures DecPair(receiveBuff[..]) == Some((x, y))
    {
      hide DecStr;
      assert receiveBuff[0..] == receiveBuff[..];
      var next;
      x, next := GetString(receiveBuff, 0);
      y, next := GetString(receiveBuff, next);
    }

    /** get_max_store or get_min_store. */
    method GetBoundary(i: nat, fwd: bool) returns (key: Bytes, value: Bytes)
      requires Wired() && i < |nodes| && NodeFits(states[i]) && states[i].data != []
      modifies this`states, this`trace, this`events, sendBuff, receiveBuff, nodesRepr
      ensures Wired() && states == old(states) && Entry(key, value) == BoundaryEntry(states[i].data, fwd)
      ensures events == old(events) + [Sent(i, if fwd then MaxKey else MinKey)]
    {
      hide DecPair, StoreImpl.Valid, StoreImpl.State;
      if fwd {
        Ask(i, MAX_KEY_WORD, MaxKey);
      } else {
        Ask(i, MIN_KEY_WORD, MinKey);
      }
      assert states == old(states);
      key, value := ReadPair();
    }

    method BuildGet(key: Bytes) returns (len: nat)
      requires sendBuff.Length == MAXLINE && LookupFits(key)
      modifies sendBuff
      ensures len <= MAXLINE && sendBuff[..len] == EncRequest(Get(key))
    {
      ghost var b0 := sendBuff[..];
      var next, total := InsertStr(sendBuff, 0, GET_WORD, 0);
      ghost var b1 := sendBuff[..];
      next, total := InsertStr(sendBuff, next, key, total);
      AppendTwice(b0, b1, sendBuff[..], 0, EncStr(GET_WORD), EncStr(key));
      assert sendBuff[..total] == sendBuff[..][..total] == b0[..0] + EncStr(GET_WORD) + EncStr(key);
      len := total;
    }

    method SendGet(i: nat, key: Bytes) returns (value: Bytes)
      requires Wired() && i < |nodes| && NodeFits(states[i]) && LookupFits(key)
      modifies this`states, this`trace, this`events, sendBuff, receiveBuff, nodesRepr
      ensures Wired() && states == old(states) && value == GetData(states[i].data, key)
    {
      hide GetData, DecStr, EncRequest, StoreImpl.Valid, StoreImpl.State;
      var len := BuildGet(key);
      Exchange(i, len, Get(key));
      assert states == old(states);
      assert receiveBuff[0..] == receiveBuff[..];
      var next;
      value, next := GetString(receiveBuff, 0);
    }

    method BuildLog(rec: Log) returns (len: nat)
      requires sendBuff.Length == MAXLINE && rec.Fits()
      modifies sendBuff
      ensures len <= MAXLINE && sendBuff[..len] == EncRequest(LogReq(rec))
    {
      ghost var b0 := sendBuff[..];
      var next, total := InsertStr(sendBuff, 0, LOG_WORD, 0);
      ghost var b1 := sendBuff[..];
      var more := rec.ToSlice(sendBuff, next);
      AppendTwice(b0, b1, sendBuff[..], 0, EncStr(LOG_WORD), EncLog(rec));
      total := total + more;
      assert sendBuff[..total] == sendBuff[..][..total] == b0[..0] + EncStr(LOG_WORD) + EncLog(rec);
      len := total;
    }

    method ReadLogged() returns (ans: Bytes, lo: Bytes, hi: Bytes)
      requires DecLogged(receiveBuff[..]).Some?
      ensures ans == OK_WORD && DecLogged(receiveBuff[..]) == Some(Logged(lo, hi))
    {
      hide DecStr;
      assert receiveBuff[0..] == receiveBuff[..];
      var next;
      ans, next := GetString(receiveBuff, 0);
      lo, next := GetString(receiveBuff, next);
      hi, next := GetString(receiveBuff, next);
    }

    /** Logs a record on node i; the reply announces the bounds its data will have. */
    method SendLog(i: nat, rec: Log) returns (ans: Bytes, lo: Bytes, hi: Bytes)
      requires Wired() && i < |nodes| && NodeFits(states[i])
      requires states[i].log == []
      requires rec.Fits() && KeyFits(rec.key) && (rec.kind == PUT || rec.kind == DELETE)
      modifies this`states, this`trace, this`events, sendBuff, receiveBuff, nodesRepr
      ensures Wired() && states == old(states)[i := WriteLog(old(states[i]), rec)]
      ensures ans == OK_WORD && (lo, hi) == Predict(old(states[i].data), rec)
      ensures events == old(events) + [Sent(i, LogReq(rec))]
    {
      hide Predict, DecLogged, WriteLog, EncRequest, StoreImpl.Valid, StoreImpl.State;
      var len := BuildLog(rec);
      Exchange(i, len, LogReq(rec));
      ans, lo, hi := ReadLogged();
    }

    method SendCommit(i: nat)
      requires Wired() && i < |nodes| && NodeFits(states[i])
      modifies this`states, this`trace, this`events, sendBuff, receiveBuff, nodesRepr
      ensures Wired() && states == old(states)[i := Commit(old(states[i]))]
      ensures events == old(events) + [Sent(i, CommitLog)]
    {
      hide Commit, DecStr, StoreImpl.Valid, StoreImpl.State;
      Ask(i, COMMIT_LOG_WORD, CommitLog);
    }

    // ---------- the directory

    /** Replaces one entry: delete under the key the iterator shows, store under the new smallest key. */
    method RewriteEntry(key: Bytes, m: Meta)
      requires metaDb.Valid() && receiveBuff.Length == MAXLINE && KeyFits(m.min) && KeyFits(m.max)
      modifies metaDb, receiveBuff, this`events
      ensures metaDb.Valid()
      ensures metaDb.table == Tables.Put(Tables.Delete(old(metaDb.table), key), m.min, EncMeta(m))
      ensures events == old(events) + [Stored(key, m)]
    {
      hide Tables.Put, Tables.Delete;
      metaDb.Delete(key);
      var len := m.ToSlice(receiveBuff);
      assert receiveBuff[..len] == receiveBuff[..][0..0 + len];
      metaDb.Put(m.min, receiveBuff[..len]);
      events := events + [Stored(key, m)];
    }

    static method ReadMeta(value: Bytes, ghost m: Meta) returns (r: Meta)
      requires value == EncMeta(m) && m.Fits()
      ensures r == m
    {
      MetaRoundTrip(m, []);
      assert EncMeta(m) + [] == EncMeta(m);
      r := DecMeta(value).value;
    }

    /** The two directory edits of a migration, both driven by one snapshot iterator. */
    method MoveMeta(key: Bytes, fwd: bool, lo1: Bytes, hi1: Bytes, lo2: Bytes, hi2: Bytes, ghost dir: Directory)
      requires metaDb.table == EncDir(dir) && Sorted(dir) && DirFits(dir) && dir != []
      requires 0 <= Neighbour(Floor(dir, key), fwd) < |dir| && receiveBuff.Length == MAXLINE
      requires EmptyOrKey(lo1) && EmptyOrKey(hi1) && EmptyOrKey(lo2) && EmptyOrKey(hi2)
      modifies metaDb, receiveBuff, this`events
      ensures metaDb.table == EncDir(MoveBoundary(dir, key, fwd, lo1, hi1, lo2, hi2))
      ensures var f, g := Floor(dir, key), Neighbour(Floor(dir, key), fwd);
              events == old(events) + [Stored(dir[f].key, Narrow(dir[f].value, lo1, hi1)),
                                       Stored(dir[g].key, Narrow(dir[g].value, lo2, hi2))]
    {
      hide Tables.Put, Tables.Delete, Tables.Seek, Less, EncMeta, EncDir;
      EncDirSeek(dir, key);
      ghost var f := Floor(dir, key);
      ghost var g := Neighbour(f, fwd);
      var it := metaDb.NewIterator();
      var found;
      it, found := DbHandle.GetSmallerOrEqual(key, it);

      var meta := ReadMeta(it.Value(), dir[f].value);
      meta := Narrow(meta, lo1, hi1);
      RewriteEntry(it.Key(), meta);
      EncDirRewrite(dir, dir[f].key, meta);
      ghost var once := Rewrite(dir, dir[f], meta);

      it := if fwd then it.Next() else it.Prev();
      meta := ReadMeta(it.Value(), dir[g].value);
      meta := Narrow(meta, lo2, hi2);
      RewriteEntry(it.Key(), meta);
      EncDirRewrite(once, dir[g].key, meta);
    }

    // ---------- migration

    /** Fetches the boundary entry of node i and logs its removal there and its insertion on node j. Store
        nodes always acknowledge, so the branch that takes the records back again is not entered. */
    method LogBoth(i: nat, j: nat, fwd: bool) returns (key: Bytes, lo1: Bytes, hi1: Bytes, lo2: Bytes, hi2: Bytes)
      requires Wired() && i < |nodes| && j < |nodes| && i != j
      requires NodeFits(states[i]) && NodeFits(states[j]) && states[i].data != []
      requires states[i].log == [] && states[j].log == []
      requires var e := BoundaryEntry(states[i].data, fwd);
               EntryFits(e.key, e.value) && DeleteRecord(e).Fits() && PutRecord(e).Fits()
      modifies this`states, this`trace, this`events, sendBuff, receiveBuff, nodesRepr
      ensures Wired()
      ensures var st, e := old(states), BoundaryEntry(old(states[i].data), fwd);
              && states == st[i := WriteLog(st[i], DeleteRecord(e))][j := WriteLog(st[j], PutRecord(e))]
              && key == e.key
              && events == old(events) + [Sent(i, if fwd then MaxKey else MinKey),
                                          Sent(i, LogReq(DeleteRecord(e))), Sent(j, LogReq(PutRecord(e)))]
              && (lo1, hi1) == Predict(st[i].data, DeleteRecord(e)) && (lo2, hi2) == Predict(st[j].data, PutRecord(e))
    {
      hide Wired, Predict, WriteLog, NodeFits, StoreImpl.Valid, StoreImpl.State, NulFree;
      WiredApart();
      var value;
      key, value := GetBoundary(i, fwd);
      var ans;
      ans, lo1, hi1 := SendLog(i, Log(DELETE, key, []));
      assert ans == OK_WORD;
      ans, lo2, hi2 := SendLog(j, Log(PUT, key, value));
      assert ans == OK_WORD;
    }

    /** The branch that takes both records back: it leaves each node in the state it was in before its LOG. */
    method TakeBack(i: nat, j: nat, ghost a: Node, ghost b: Node, ghost r: Log, ghost q: Log)
      requires Wired() && i < |nodes| && j < |nodes| && i != j
      requires a.log == [] && b.log == [] && states[i] == WriteLog(a, r) && states[j] == WriteLog(b, q)
      requires NodeFits(states[i]) && NodeFits(states[j])
      modifies this`states, this`trace, this`events, sendBuff, receiveBuff, nodesRepr
      ensures Wired() && states == old(states)[i := a][j := b]
      ensures events == old(events) + [Sent(i, DelLog), Sent(j, DelLog)]
    {
      hide Wired, WriteLog, ClearLog, NodeFits, StoreImpl.Valid, StoreImpl.State, EncLog, DecStr;
      WiredApart();
      DelLogUndoesLog(a, r);
      DelLogUndoesLog(b, q);
      Ask(i, DEL_LOG_WORD, DelLog);
      Ask(j, DEL_LOG_WORD, DelLog);
    }

    method CommitBoth(i: nat, j: nat)
      requires Wired() && i < |nodes| && j < |nodes| && i != j
      requires NodeFits(states[i]) && NodeFits(states[j])
      modifies this`states, this`trace, this`events, sendBuff, receiveBuff, nodesRepr
      ensures Wired()
      ensures states == old(states)[i := Commit(old(states[i]))][j := Commit(old(states[j]))]
      ensures events == old(events) + [Sent(i, CommitLog), Sent(j, CommitLog)]
    {
      hide Wired, Commit, NodeFits, StoreImpl.Valid, StoreImpl.State;
      WiredApart();
      SendCommit(i);
      SendCommit(j);
    }

    /** Log on both nodes, edit the directory, commit on both. */
    method MoveEntry(i: nat, j: nat, fwd: bool, ghost dir: Directory)
      requires Wired() && i < |nodes| && j < |nodes| && i != j
      requires NodeFits(states[i]) && NodeFits(states[j]) && states[i].data != []
      requires states[i].log == [] && states[j].log == []
      requires metaDb.table == EncDir(dir) && Sorted(dir) && DirFits(dir) && dir != []
      requires var e := BoundaryEntry(states[i].data, fwd);
               && EntryFits(e.key, e.value) && DeleteRecord(e).Fits() && PutRecord(e).Fits()
               && 0 <= Neighbour(Floor(dir, e.key), fwd) < |dir|
               && (var (lo, hi) := Predict(states[i].data, DeleteRecord(e)); EmptyOrKey(lo) && EmptyOrKey(hi))
               && (var (lo, hi) := Predict(states[j].data, PutRecord(e)); EmptyOrKey(lo) && EmptyOrKey(hi))
      modifies this`states, this`trace, this`events, sendBuff, receiveBuff, metaDb, nodesRepr
      ensures Wired()
      ensures var st, e := old(states), BoundaryEntry(old(states[i].data), fwd);
              && states == Protocol(st, i, j, e)
              && var (lo1, hi1) := Predict(st[i].data, DeleteRecord(e));
              && var (lo2, hi2) := Predict(st[j].data, PutRecord(e));
              && metaDb.table == EncDir(MoveBoundary(dir, e.key, fwd, lo1, hi1, lo2, hi2))
              && var f, g := Floor(dir, e.key), Neighbour(Floor(dir, e.key), fwd);
              && events == old(events) + [Sent(i, if fwd then MaxKey else MinKey),
                                          Sent(i, LogReq(DeleteRecord(e))), Sent(j, LogReq(PutRecord(e))),
                                          Stored(dir[f].key, Narrow(dir[f].value, lo1, hi1)),
                                          Stored(dir[g].key, Narrow(dir[g].value, lo2, hi2)),
                                          Sent(i, CommitLog), Sent(j, CommitLog)]
    {
      hide Wired, Predict, MoveBoundary, EncDir, WriteLog, Commit, NodeFits, Sorted, Floor, EntryFits, DirFits;
      hide EmptyOrKey, EncEntry, EncMeta, Less, Rewrite, Neighbour, BoundaryEntry;
      WiredApart();
      ghost var st, e := states, BoundaryEntry(states[i].data, fwd);
      LoggedFits(st[i], DeleteRecord(e));
      LoggedFits(st[j], PutRecord(e));
      var key, lo1, hi1, lo2, hi2 := LogBoth(i, j, fwd);
      MoveMeta(key, fwd, lo1, hi1, lo2, hi2, dir);
      CommitBoth(i, j);
    }

    /** The body of either pass's inner loop. */
    method MigrateOne(i: nat, fwd: bool)
      requires Valid() && Inv(cluster) && Room(cluster)
      requires Neighboured(cluster.nodes, i, fwd) && |cluster.nodes[i]| >= 2
      modifies Repr()
      ensures Valid() && cluster == Migrate(old(cluster), i, fwd) && |old(cluster.dir)| == |old(cluster.nodes)|
      ensures events == old(events) + MigrationEvents(old(cluster), i, fwd)
    {
      hide Wired, Inv, Migrate, Predict, MoveBoundary, EncDir, Protocol, NodeFits, Room, DirFits, Sorted;
      hide EmptyOrKey, EntryFits, EncEntry, EncMeta, Less;
      hide StoreImpl.Valid, StoreImpl.State, Floor;
      WiredApart();
      ghost var c, st, e := cluster, states, BoundaryEntry(cluster.nodes[i], fwd);
      MigrateReady(c, i, fwd);
      RoomSize(c);
      InvDirFits(c);
      MoveEntry(i, Neighbour(i, fwd), fwd, c.dir);
      ghost var (lo1, hi1) := Predict(c.nodes[i], DeleteRecord(e));
      ghost var (lo2, hi2) := Predict(c.nodes[Neighbour(i, fwd)], PutRecord(e));
      MigrateDir(c, i, fwd, lo1, hi1, lo2, hi2);
      StoredExact(c, i, fwd);
      ProtocolMigrates(c, st, i, fwd);
      cluster := Migrate(c, i, fwd);
    }

    // ---------- re_balance

    /** The size of all nodes together, asked for one by one. */
    method SumSizes() returns (total: nat)
      requires Valid() && Inv(cluster) && Room(cluster)
      modifies this`states, this`trace, this`events, sendBuff, receiveBuff, nodesRepr
      ensures Valid() && total == Total(cluster.nodes)
    {
      hide Wired, Inv, EncDir, Less;
      WiredApart();
      total := 0;
      for i := 0 to |nodes|
        invariant Valid() && total == Total(cluster.nodes[..i])
      {
        IdleFits(cluster, i);
        var s := GetSize(i);
        TotalPrefix(cluster.nodes, i);
        total := total + s;
      }
      assert cluster.nodes[..|nodes|] == cluster.nodes;
    }

    /** The inner loop on node i; moves counts its turns. */
    method DrainNode(i: nat, fwd: bool, q: Quota) returns (ghost moves: nat)
      requires Valid() && Inv(cluster) && Room(cluster) && Neighboured(cluster.nodes, i, fwd)
      modifies Repr()
      ensures Valid() && Shaped(old(cluster)) && cluster == Drained(old(cluster), i, fwd, q)
      ensures moves == DrainMoves(old(cluster.nodes), i, fwd, q)
    {
      hide Wired, Inv, EncDir, Less, Migrate, Room, Drain, Shaped, Balance.NotTooMuch;
      WiredApart();
      InvShaped(cluster);
      ghost var c0 := cluster;
      moves := 0;
      IdleFits(cluster, i);
      var fine := NotTooMuch(i, q);
      while !fine
        invariant Valid() && Inv(cluster) && Room(cluster) && Neighboured(cluster.nodes, i, fwd) && Shaped(cluster)
        invariant fine == Balance.NotTooMuch(cluster.nodes[i], q)
        invariant Drained(cluster, i, fwd, q) == Drained(c0, i, fwd, q)
        invariant moves + DrainMoves(cluster.nodes, i, fwd, q) == DrainMoves(c0.nodes, i, fwd, q)
        decreases |cluster.nodes[i]|
      {
        DrainTurn(cluster, i, fwd, q);
        MigrateOne(i, fwd);
        moves := moves + 1;
        IdleFits(cluster, i);
        fine := NotTooMuch(i, q);
      }
    }

    method ForwardLoop(q: Quota) returns (ghost moves: nat)
      requires Valid() && Inv(cluster) && Room(cluster)
      modifies Repr()
      ensures Valid() && Inv(cluster) && Room(cluster)
      ensures Shaped(old(cluster)) && cluster == ForwardPass(old(cluster), 0, q)
      ensures moves == ForwardMoves(old(cluster.nodes), 0, q)
    {
      hide Wired, Inv, EncDir, Less, Migrate, Room, Shaped, Drained, Drain, DrainMoves;
      ghost var c0 := cluster;
      InvShaped(cluster);
      moves := 0;
      var i := 0;
      while i < |nodes| - 1
        invariant 0 <= i && Valid() && Inv(cluster) && Room(cluster) && Shaped(cluster)
        invariant ForwardPass(cluster, i, q) == ForwardPass(c0, 0, q)
        invariant moves + ForwardMoves(cluster.nodes, i, q) == ForwardMoves(c0.nodes, 0, q)
      {
        PassTurn(cluster, i, true, q);
        ghost var turns := DrainNode(i, true, q);
        moves := moves + turns;
        InvShaped(cluster);
        i := i + 1;
      }
    }

    method BackwardLoop(q: Quota) returns (ghost moves: nat)
      requires Valid() && Inv(cluster) && Room(cluster) && nodes != []
      modifies Repr()
      ensures Valid() && Inv(cluster) && Room(cluster)
      ensures Shaped(old(cluster)) && cluster == BackwardPass(old(cluster), |nodes| - 1, q)
      ensures moves == BackwardMoves(old(cluster.nodes), |nodes| - 1, q)
    {
      hide Wired, Inv, EncDir, Less, Migrate, Room, Shaped, Drained, Drain, DrainMoves;
      ghost var c0 := cluster;
      InvShaped(cluster);
      moves := 0;
      var i := |nodes| - 1;
      while i > 0
        invariant 0 <= i < |nodes| && Valid() && Inv(cluster) && Room(cluster) && Shaped(cluster)
        invariant BackwardPass(cluster, i, q) == BackwardPass(c0, |nodes| - 1, q)
        invariant moves + BackwardMoves(cluster.nodes, i, q) == BackwardMoves(c0.nodes, |nodes| - 1, q)
      {
        PassTurn(cluster, i, false, q);
        ghost var turns := DrainNode(i, false, q);
        moves := moves + turns;
        InvShaped(cluster);
        i := i - 1;
      }
    }

    /** Both passes. moves counts the migrations performed. */
    method ReBalance() returns (ghost moves: nat)
      requires Valid() && Inv(cluster) && Room(cluster)
      modifies Repr()
      ensures Valid() && Inv(cluster) && Room(cluster)
      ensures Shaped(old(cluster)) && cluster == Clusters.ReBalance(old(cluster))
      ensures old(cluster.nodes) != [] && moves == Moves(old(cluster.nodes))
    {
      hide Wired, Inv, EncDir, Less, Room, Shaped, ForwardPass, BackwardPass, ForwardMoves, BackwardMoves, Forward;
      WiredApart();
      ghost var c0 := cluster;
      InvSizes(cluster);
      InvShaped(cluster);
      var total := SumSizes();
      var q := Quota(total, 1.0 / |nodes| as real);
      assert q == QuotaOf(c0.nodes);
      ForwardRefines(c0, 0, q);
      ghost var forward := ForwardLoop(q);
      ghost var backward := BackwardLoop(q);
      moves := forward + backward;
    }

    // ---------- commands

    /** The directory entry a key is routed to. */
    method RouteKey(key: Bytes) returns (entry: Bytes, meta: Meta)
      requires metaDb.table == EncDir(cluster.dir) && Inv(cluster) && Room(cluster)
      ensures Floor(cluster.dir, key) < |cluster.dir| && metaDb.Valid()
      ensures Entry(entry, meta) == cluster.dir[Floor(cluster.dir, key)]
    {
      hide Inv, Less, EncMeta, Tables.Seek;
      RoomSize(cluster);
      InvDirFits(cluster);
      InvSizes(cluster);
      EncDirSeek(cluster.dir, key);
      var it := metaDb.NewIterator();
      var found;
      it, found := DbHandle.GetSmallerOrEqual(key, it);
      entry := it.Key();
      meta := ReadMeta(it.Value(), cluster.dir[it.pos].value);
    }

    /** Logs the put where the key is routed, widens that range to the key, commits. */
    method PutEntry(key: Bytes, value: Bytes)
      requires Valid() && Inv(cluster) && Room(cluster) && EntryFits(key, value)
      modifies Repr()
      ensures Valid() && Routable(old(cluster), key) && cluster == PutStep(old(cluster), key, value)
      ensures WriteEvents(old(events), events, Log(PUT, key, value))
    {
      hide Wired, Inv, EncDir, EncMeta, Less, Room, NodeFits, WriteLog, Commit, Predict, Tables.Put, Tables.Delete;
      hide EntryFits, KeyFits;
      WiredApart();
      ghost var c, f := cluster, Floor(cluster.dir, key);
      PutTurn(c, key, value);
      EntryHasKey(key, value);
      var entry, meta := RouteKey(key);
      var ans, lo, hi := SendLog(meta.fd, Log(PUT, key, value));
      assert ans == OK_WORD;
      RewrittenFits(c, f, key);
      meta := Meta(Min(meta.min, key), Max(meta.max, key), meta.fd);
      RewriteEntry(entry, meta);
      EncDirRewrite(c.dir, entry, meta);
      SendCommit(meta.fd);
      cluster := PutStep(c, key, value);
    }

    static lemma EntryHasKey(key: Bytes, value: Bytes)
      requires EntryFits(key, value)
      ensures KeyFits(key)
    {
    }

    method DeleteEntry(key: Bytes)
      requires Valid() && Inv(cluster) && Room(cluster) && KeyFits(key)
      modifies Repr()
      ensures Valid() && Routable(old(cluster), key) && cluster == DeleteStep(old(cluster), key)
      ensures WriteEvents(old(events), events, Log(DELETE, key, []))
    {
      hide Wired, Inv, EncDir, EncMeta, Less, Room, NodeFits, WriteLog, Commit, Predict, Tables.Put, Tables.Delete;
      hide KeyFits;
      WiredApart();
      ghost var c, f := cluster, Floor(cluster.dir, key);
      DeleteTurn(c, key);
      var entry, meta := RouteKey(key);
      var ans, newMin, newMax := SendLog(meta.fd, Log(DELETE, key, []));
      assert ans == OK_WORD;
      if newMin == [] {
        newMin, newMax := meta.min, meta.max;
      }
      RewrittenFits(c, f, key);
      meta := Meta(Min(meta.min, newMin), Max(meta.max, key), meta.fd);
      RewriteEntry(entry, meta);
      EncDirRewrite(c.dir, entry, meta);
      SendCommit(meta.fd);
      cluster := DeleteStep(c, key);
    }

    /** One turn of the console loop. */
    method RunCommand(cmd: Command) returns (printed: Option<Bytes>)
      requires Valid() && Inv(cluster) && CommandFits(cmd) && RoomFor(cluster, [cmd])
      modifies Repr()
      ensures Valid() && Shaped(old(cluster)) && cluster == Execute(old(cluster), cmd)
      ensures printed == Printed(old(cluster), cmd)
    {
      hide Wired, Inv, EncDir, Less, Room, RoomFor, NodeFits, PutStep, DeleteStep, Shaped, KeyFits, GetData;
      WiredApart();
      InvShaped(cluster);
      printed := None;
      match cmd
      case PutCmd(key, value) =>
        PutReady(cluster, key, value);
        PutEntry(key, value);
        ghost var _ := ReBalance();
      case GetCmd(key) =>
        GetReady(cluster, key);
        var entry, meta := RouteKey(key);
        var ans := SendGet(meta.fd, key);
        printed := Some(ans);
      case DelCmd(key) =>
        if key != [] {
          DeleteReady(cluster, key);
          DeleteEntry(key);
          ghost var _ := ReBalance();
        }
    }

    /** The console loop over a finite list of commands: it prints what one map would print, and one write
        among them leaves the nodes balanced. */
    method Run(cmds: seq<Command>) returns (printed: seq<Option<Bytes>>)
      requires Valid() && Inv(cluster) && RoomFor(cluster, cmds)
      requires forall i :: 0 <= i < |cmds| ==> CommandFits(cmds[i])
      modifies Repr()
      ensures Valid() && Inv(cluster)
      ensures printed == MapAnswers(Content(old(cluster)), cmds)
      ensures Content(cluster) == MapAfter(Content(old(cluster)), cmds)
      ensures Balanced(old(cluster.nodes)) || (exists i :: 0 <= i < |cmds| && IsWrite(cmds[i]))
              ==> Balanced(cluster.nodes)
    {
      hide Balanced, IsWrite;
      hide Wired, Inv, EncDir, Less, RoomFor, Shaped, Content, Execute, Printed, CommandFits, Idle;
      ghost var c0 := cluster;
      InvShaped(c0);
      printed := [];
      var i := 0;
      assert cmds[0..] == cmds;
      while i < |cmds|
        invariant 0 <= i <= |cmds| && Valid() && Inv(cluster) && Shaped(cluster) && RoomFor(cluster, cmds[i..])
        invariant After(cluster, cmds[i..]) == After(c0, cmds)
        invariant printed + Answers(cluster, cmds[i..]) == Answers(c0, cmds)
      {
        RunTurn(cluster, cmds, i);
        var line := RunCommand(cmds[i]);
        InvShaped(cluster);
        printed := printed + [line];
        i := i + 1;
      }
      assert cmds[i..] == [];
      RunRefinesMap(c0, cmds);
      RunKeepsInv(c0, cmds);
      RunBalances(c0, cmds);
    }

    lemma NodesIdle()
      requires Valid()
      ensures |cluster.nodes| == |nodes|
      ensures forall i :: 0 <= i < |nodes| ==> nodes[i].Valid() && nodes[i].State() == Idle(cluster.nodes[i])
    {
    }
  }

  lemma ContentOf(c: Cluster)
    ensures Content(c) == ToMap(Flatten(c.nodes))
  {
  }

  /** The whole program on a fresh cluster: one to nine empty store nodes and an empty directory database.
      The commands print what a map that starts empty prints, and leave what it holds on the nodes, balanced. */
  method FreshRun(metaDb: DbHandle, nodes: seq<StoreImpl>, cmds: seq<Command>)
    returns (printed: seq<Option<Bytes>>, ghost shards: Shards)
    requires 1 <= |nodes| <= 9 && metaDb.Valid() && metaDb.table == []
    requires forall i :: 0 <= i < |nodes| ==>
               nodes[i].Valid() && nodes[i].State() == Idle([]) && metaDb !in nodes[i].Repr()
    requires forall i, j :: 0 <= i < |nodes| && 0 <= j < |nodes| && i != j ==> nodes[i].Repr() !! nodes[j].Repr()
    requires RoomFor(Start(|nodes|), cmds) && forall i :: 0 <= i < |cmds| ==> CommandFits(cmds[i])
    modifies metaDb, ControlImpl.Footprint(nodes)
    ensures printed == MapAnswers(map[], cmds)
    ensures |shards| == |nodes|
    ensures forall i :: 0 <= i < |nodes| ==> nodes[i].Valid() && nodes[i].State() == Idle(shards[i])
    ensures ToMap(Flatten(shards)) == MapAfter(map[], cmds) && Balanced(shards)
  {
    hide Balanced, IsWrite, ToMap, MapAfter, Flatten;
    hide Inv, RoomFor, CommandFits, SeedDirectory, Idle, Content, MapAnswers, Less, EncEntry;
    hide ControlImpl.Wired, StoreImpl.Valid, StoreImpl.State, StoreImpl.Repr;
    StartInv(|nodes|);
    StartEmpty(|nodes|);
    StartBalanced(|nodes|);
    var control := new ControlImpl(metaDb, nodes, [], seq(|nodes|, _ => []));
    printed := control.Run(cmds);
    shards := control.cluster.nodes;
    ContentOf(control.cluster);
    control.NodesIdle();
  }
}
