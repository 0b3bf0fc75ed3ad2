/** The store node: data with its byte counter, log, and the loop body that serves one request. */
module StoreImpls {
  import opened Bytes
  import opened Tables
  import opened HandleBuff
  import opened Records
  import opened DbHandles
  import opened StoreSpec
  import opened Wire

  class StoreData {
    const db: DbHandle
    var size: int

    /** The counter of a freshly opened database is the full scan. */
    constructor (db: DbHandle)
      requires db.Valid()
      ensures this.db == db && size == Weight(db.table)
    {
      this.db := db;
      new;
      size := db.GetSize();
    }

    method Get(key: Bytes) returns (value: Bytes)
      requires db.Valid()
      ensures value == GetData(db.table, key)
    {
      value := db.Get(key);
    }

    method Delete(key: Bytes)
      requires db.Valid()
      modifies this, db
      ensures db.Valid()
      ensures forall l :: Node(db.table, size, l) == DeleteData(Node(old(db.table), old(size), l), key)
    {
      var value := db.Get(key);
      if |value| > 0 {
        size := size - (|value| + 1);
        size := size - (|key| + 1);
      }
      db.Delete(key);
    }

    method Put(key: Bytes, value: Bytes)
      requires db.Valid()
      modifies this, db
      ensures db.Valid()
      ensures forall l :: Node(db.table, size, l) == PutData(Node(old(db.table), old(size), l), key, value)
    {
      var prior := db.Get(key);
      if |prior| > 0 {
        size := size - (|prior| + 1);
        size := size - (|key| + 1);
      }
      db.Put(key, value);
      size := size + |key| + |value| + 2;
    }

    method GetMaxKey() returns (key: Bytes, value: Bytes)
      ensures Pair(key, value) == Answer(Node(db.table, size, []), MaxKey)
    {
      key, value := [], [];
      var it := db.NewIterator();
      it := it.SeekToLast();
      if it.Valid() {
        key, value := it.Key(), it.Value();
      }
    }

    method GetMinKey() returns (key: Bytes, value: Bytes)
      ensures Pair(key, value) == Answer(Node(db.table, size, []), MinKey)
    {
      key, value := [], [];
      var it := db.NewIterator();
      it := it.SeekToFirst();
      if it.Valid() {
        key, value := it.Key(), it.Value();
      }
    }
  }

  class StoreLog {
    const db: DbHandle
    const buff: array<byte>

    constructor (db: DbHandle)
      ensures this.db == db && fresh(buff) && buff.Length == MAXLINE
    {
      this.db := db;
      buff := new byte[MAXLINE];
    }

    method WriteLog(kind: int, key: Bytes, value: Bytes)
      requires db.Valid() && |EncLog(Log(kind, key, value))| <= buff.Length
      modifies db, buff
      ensures db.Valid()
      ensures db.table == Tables.Put(old(db.table), EncLog(Log(kind, key, value)), [])
    {
      var len := Log(kind, key, value).ToSlice(buff, 0);
      assert buff[..len] == buff[..][0..0 + len];
      db.Put(buff[..len], []);
    }

    /** None stands for a record that does not decode. */
    method GetLog() returns (r: Option<Log>)
      ensures forall d, n :: r == StoreSpec.GetLog(Node(d, n, db.table))
    {
      var it := db.NewIterator();
      it := it.SeekToFirst();
      if it.Valid() {
        return DecLog(it.Key());
      }
      return Some(Log(ERROR, [], []));
    }

    method ClearLog()
      requires db.Valid()
      modifies db
      ensures db.Valid()
      ensures forall d, n :: Node(d, n, db.table) == StoreSpec.ClearLog(Node(d, n, old(db.table)))
    {
      var it := db.NewIterator();
      it := it.SeekToFirst();
      if it.Valid() {
        db.Delete(it.Key());
      }
    }
  }

  class StoreImpl {
    const storeData: StoreData
    const storeLog: StoreLog
    const receiveBuff: array<byte>
    const sendBuff: array<byte>

    ghost function Repr(): set<object> {
      {this, storeData, storeData.db, storeLog, storeLog.db, storeLog.buff, receiveBuff, sendBuff}
    }

    ghost predicate Valid()
      reads Repr()
    {
      && storeData.db != storeLog.db
      && storeLog.buff != receiveBuff && storeLog.buff != sendBuff && receiveBuff != sendBuff
      && storeLog.buff.Length == receiveBuff.Length == sendBuff.Length == MAXLINE
      && storeData.db.Valid() && storeLog.db.Valid()
    }

    ghost function State(): Node
      reads Repr()
    {
      Node(storeData.db.table, storeData.size, storeLog.db.table)
    }

    constructor (data: DbHandle, log: DbHandle)
      requires data != log && data.Valid() && log.Valid()
      ensures Valid() && fresh(Repr() - {data, log})
      ensures State() == Node(data.table, Weight(data.table), log.table)
    {
      storeData := new StoreData(data);
      storeLog := new StoreLog(log);
      receiveBuff := new byte[MAXLINE];
      sendBuff := new byte[MAXLINE];
    }

    method CommitLog()
      requires Valid()
      modifies Repr()
      ensures Valid() && State() == Commit(old(State()))
    {
      ghost var s := State();
      var log := storeLog.GetLog();
      assert log == GetLog(s);
      if log.Some? {
        if log.value.kind == PUT {
          storeData.Put(log.value.key, log.value.value);
        } else if log.value.kind == DELETE {
          storeData.Delete(log.value.key);
        }
      }
      assert State() == Apply(s, log);
      storeLog.ClearLog();
    }

    method DeleteLog()
      requires Valid()
      modifies Repr()
      ensures Valid() && State() == ClearLog(old(State()))
    {
      storeLog.ClearLog();
    }

    /** The bounds after the logged operation, read off an iterator over the data as it is before it. */
    static method Bounds(it0: Iterator<Bytes>, log: Log) returns (newMin: Bytes, newMax: Bytes)
      requires log.key != [] && (log.kind == PUT || log.kind == DELETE)
      ensures (newMin, newMax) == Predict(it0.snapshot, log)
    {
      newMin, newMax := [], [];
      var it := it0.SeekToFirst();
      if it.Valid() {
        newMin := it.Key();
      }
      it := it.SeekToLast();
      if it.Valid() {
        newMax := it.Key();
      }
      if log.kind == PUT {
        if newMin == [] {
          newMin, newMax := log.key, log.key;
        }
        newMin, newMax := Min(newMin, log.key), Max(log.key, newMax);
        LessIrreflexive(log.key);
      } else {
        if log.key == newMin {
          it := it.SeekToFirst();
          it := it.Next();
          newMin := if it.Valid() then it.Key() else [];
        }
        if log.key == newMax {
          it := it.SeekToLast();
          it := it.Prev();
          newMax := if it.Valid() then it.Key() else [];
        }
      }
    }

    /** Writes the record, then appends to the reply the bounds the data will have once it is committed. */
    method LogLog(log: Log, at: nat, len: int) returns (len': int)
      requires Valid() && NodeFits(State()) && log.Fits() && KeyFits(log.key)
      requires log.kind == PUT || log.kind == DELETE
      requires at == len == |EncReply(Ack)|
      requires sendBuff[..at] == EncReply(Ack)
      modifies Repr() - {receiveBuff}
      ensures Valid() && State() == WriteLog(old(State()), log)
      ensures var a := EncReply(Answer(old(State()), LogReq(log)));
              len' == |a| <= sendBuff.Length && sendBuff[..len'] == a
    {
      hide Less, Predict, EncInt, Put;
      ghost var s := State();
      var it := storeData.db.NewIterator();
      storeLog.WriteLog(log.kind, log.key, log.value);
      var newMin, newMax := Bounds(it, log);
      AnswersFit(s, LogReq(log));
      ghost var b0 := sendBuff[..];
      var next;
      next, len' := InsertStr(sendBuff, at, newMin, len);
      ghost var b1 := sendBuff[..];
      next, len' := InsertStr(sendBuff, next, newMax, len');
      AppendTwice(b0, b1, sendBuff[..], at, EncStr(newMin), EncStr(newMax));
      assert sendBuff[..len'] == sendBuff[..][..len'];
      assert sendBuff[..len'] == EncStr(OK_WORD) + EncStr(newMin) + EncStr(newMax);
    }

    method SendStr(value: Bytes) returns (reply: Bytes)
      requires |EncStr(value)| <= sendBuff.Length
      modifies sendBuff
      ensures reply == EncStr(value) && sendBuff[..|reply|] == reply
    {
      var next, len := InsertStr(sendBuff, 0, value, 0);
      reply := sendBuff[..len];
      assert reply == sendBuff[..][0..0 + len];
    }

    method SendInt(n: int) returns (reply: Bytes)
      requires 4 <= sendBuff.Length
      modifies sendBuff
      ensures reply == EncInt(n)
    {
      var next, len := InsertInt(sendBuff, 0, n, 0);
      reply := sendBuff[..len];
      assert reply == sendBuff[..][0..0 + len];
    }

    method SendPair(key: Bytes, value: Bytes) returns (reply: Bytes)
      requires |EncStr(key) + EncStr(value)| <= sendBuff.Length
      modifies sendBuff
      ensures reply == EncStr(key) + EncStr(value)
    {
      ghost var b0 := sendBuff[..];
      var next, len := InsertStr(sendBuff, 0, key, 0);
      ghost var b1 := sendBuff[..];
      next, len := InsertStr(sendBuff, next, value, len);
      AppendTwice(b0, b1, sendBuff[..], 0, EncStr(key), EncStr(value));
      reply := sendBuff[..len];
      assert reply == sendBuff[..][..len] == b0[..0] + EncStr(key) + EncStr(value);
    }

    method ServeLog(at: nat, ghost r: Log) returns (reply: Bytes)
      requires Valid() && NodeFits(State()) && at <= MAXLINE
      requires DecLog(receiveBuff[at..]) == Some(r) && r.Fits() && KeyFits(r.key)
      requires r.kind == PUT || r.kind == DELETE
      modifies Repr()
      ensures Valid() && State() == Handle(old(State()), LogReq(r))
      ensures reply == EncReply(Answer(old(State()), LogReq(r)))
    {
      var log := Log.FromBuff(receiveBuff, at);
      reply := SendStr(OK_WORD);
      var len := LogLog(log, |reply|, |reply|);
      reply := sendBuff[..len];
    }

    /** The requests that leave the node as it is. */
    method ServeQuery(command: Bytes, at: nat, ghost q: Request) returns (reply: Bytes)
      requires Valid() && NodeFits(State()) && at <= MAXLINE && RequestFits(q)
      requires DecArgs(command, receiveBuff[at..]) == Some(q)
      requires !q.LogReq? && !q.CommitLog? && !q.DelLog?
      modifies receiveBuff, sendBuff
      ensures Valid() && State() == old(State())
      ensures reply == EncReply(Answer(old(State()), q))
    {
      hide Less, Find, EncInt, FirstNul, DecLog, DecReply, RepliesTo, NodeFits, Sorted;
      AnswersFit(State(), q);
      ReplyRoundTrip(q, Answer(State(), q), []);
      if command == GET_WORD {
        var key, next := GetString(receiveBuff, at);
        var value := storeData.Get(key);
        reply := SendStr(value);
      } else if command == SIZE_WORD {
        reply := SendInt(storeData.size);
      } else if command == LESS_OR_EQUAL_ONE_WORD {
        var few := storeData.db.StoreLessOrEqualOne();
        reply := SendInt(if few then 1 else 0);
      } else if command == MAX_KEY_WORD {
        var key, value := storeData.GetMaxKey();
        reply := SendPair(key, value);
      } else {
        var key, value := storeData.GetMinKey();
        reply := SendPair(key, value);
      }
    }

    method Receive(msg: Bytes, ghost q: Request) returns (command: Bytes, next: nat)
      requires receiveBuff.Length == MAXLINE && msg == EncRequest(q) && RequestFits(q)
      modifies receiveBuff
      ensures next <= MAXLINE && DecArgs(command, receiveBuff[next..]) == Some(q)
    {
      hide DecStr, DecArgs, EncRequest, RequestFits;
      ghost var stale := if |msg| <= MAXLINE then receiveBuff[|msg|..] else [];
      RequestRoundTrip(q, stale);
      CopyTo(receiveBuff, 0, msg);
      assert receiveBuff[0..] == msg + stale;
      command, next := GetString(receiveBuff, 0);
    }

    /** The body of the request loop: a whole message in, the whole reply out. */
    method Serve(msg: Bytes, ghost q: Request) returns (reply: Bytes)
      requires Valid() && NodeFits(State())
      requires msg == EncRequest(q) && RequestFits(q)
      requires Loggable(q)
      modifies Repr()
      ensures Valid() && State() == Handle(old(State()), q)
      ensures reply == EncReply(Answer(old(State()), q))
    {
      hide Less, Predict, GetData, EncInt, DecLog, Commit, ClearLog, WriteLog;
      var command, next := Receive(msg, q);
      if command == LOG_WORD {
        reply := ServeLog(next, q.rec);
      } else if command == COMMIT_LOG_WORD {
        CommitLog();
        reply := SendStr(OK_WORD);
      } else if command == DEL_LOG_WORD {
        DeleteLog();
        reply := SendStr(OK_WORD);
      } else {
        reply := ServeQuery(command, next, q);
      }
    }
  }

  lemma AppendTwice(a: Bytes, b: Bytes, c: Bytes, at: nat, x: Bytes, y: Bytes)
    requires Wrote(a, b, at, x) && Wrote(b, c, at + |x|, y)
    ensures at + |x| + |y| <= |c| && c[..at + |x| + |y|] == a[..at] + x + y
  {
    WroteTwice(a, b, c, at, x, y);
    var e := at + |x| + |y|;
    assert c[..e] == c[..at] + c[at..e];
  }
}
