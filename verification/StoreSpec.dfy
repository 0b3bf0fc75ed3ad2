/** One store node as a state machine over requests: its data, the byte counter it maintains, and its
    log database, whose keys are encoded records. */
module StoreSpec {
  import opened Bytes
  import opened Tables
  import opened HandleBuff
  import opened Records

  datatype Node = Node(data: Table<Bytes>, size: int, log: Table<Bytes>)

  datatype Request =
    | Get(key: Bytes)
    | LogReq(rec: Log)
    | CommitLog
    | DelLog
    | Size
    | LessOrEqualOne
    | MaxKey
    | MinKey

  datatype Reply =
    | Value(value: Bytes)
    | Logged(lo: Bytes, hi: Bytes)
    | Ack
    | Number(n: int)
    | Pair(key: Bytes, val: Bytes)

  // ---------- data and counter

  function GetData(t: Table<Bytes>, k: Bytes): Bytes {
    match Find(t, k) case Some(v) => v case None => []
  }

  /** The counter gives back the old entry only if its value is not empty. */
  function Discount(s: Node, k: Bytes): int {
    var prior := GetData(s.data, k);
    if |prior| > 0 then s.size - (|prior| + 1) - (|k| + 1) else s.size
  }

  function PutData(s: Node, k: Bytes, v: Bytes): Node {
    s.(data := Put(s.data, k, v), size := Discount(s, k) + |k| + |v| + 2)
  }

  function DeleteData(s: Node, k: Bytes): Node {
    s.(data := Delete(s.data, k), size := Discount(s, k))
  }

  ghost predicate Counted(s: Node) {
    s.size == Weight(s.data)
  }

  /** One put or delete keeps the counter equal to the full scan exactly when the entry it replaces or
      removes, if there is one, has a non-empty value. */
  lemma CounterStep(s: Node, k: Bytes, v: Bytes)
    requires Counted(s)
    ensures Counted(PutData(s, k, v)) <==> Find(s.data, k) != Some([])
    ensures Counted(DeleteData(s, k)) <==> Find(s.data, k) != Some([])
  {
    WeightPutDelete(s.data, k, v);
  }

  datatype DataOp = Write(key: Bytes, value: Bytes) | Erase(key: Bytes)

  function RunData(s: Node, ops: seq<DataOp>): Node {
    if ops == [] then s
    else
      var s' := RunData(s, ops[..|ops| - 1]);
      match ops[|ops| - 1]
      case Write(k, v) => PutData(s', k, v)
      case Erase(k) => DeleteData(s', k)
  }

  /** How far the counter has run ahead of the full scan. */
  function Drift(s: Node): int {
    s.size - Weight(s.data)
  }

  /** Replacing or removing an empty value leaves the counter |key| + 2 further ahead; nothing else moves it. */
  lemma DriftStep(s: Node, k: Bytes, v: Bytes)
    ensures var more := if Find(s.data, k) == Some([]) then |k| + 2 else 0;
            Drift(PutData(s, k, v)) == Drift(s) + more && Drift(DeleteData(s, k)) == Drift(s) + more
  {
    WeightPutDelete(s.data, k, v);
  }

  /** Operation i of the list replaces or removes an empty value. */
  ghost predicate HitsEmpty(s: Node, ops: seq<DataOp>, i: nat)
    requires i < |ops|
  {
    Find(RunData(s, ops[..i]).data, ops[i].key) == Some([])
  }

  lemma {:induction false} DriftAlongRun(s: Node, ops: seq<DataOp>)
    ensures Drift(RunData(s, ops)) >= Drift(s)
    ensures Drift(RunData(s, ops)) == Drift(s) <==> forall i :: 0 <= i < |ops| ==> !HitsEmpty(s, ops, i)
  {
    hide PutData, DeleteData, Find, Drift;
    if ops != [] {
      var n := |ops| - 1;
      DriftAlongRun(s, ops[..n]);
      var s', op := RunData(s, ops[..n]), ops[n];
      DriftStep(s', op.key, if op.Write? then op.value else []);
      forall i | 0 <= i < n
        ensures HitsEmpty(s, ops[..n], i) == HitsEmpty(s, ops, i)
      {
        assert ops[..n][..i] == ops[..i];
      }
      assert HitsEmpty(s, ops, n) == (Find(s'.data, op.key) == Some([]));
    }
  }

  /** Over any sequence of puts, overwrites and deletes, and for any values, the counter is still the full
      scan if and only if no operation of the sequence replaced or removed an empty value. */
  lemma CounterExactIff(s: Node, ops: seq<DataOp>)
    requires Counted(s)
    ensures Counted(RunData(s, ops)) <==> forall i :: 0 <= i < |ops| ==> !HitsEmpty(s, ops, i)
  {
    DriftAlongRun(s, ops);
  }

  ghost predicate NoEmptyValue(t: Table<Bytes>) {
    forall i :: 0 <= i < |t| ==> t[i].value != []
  }

  lemma {:induction false} ValuesStayNonEmpty(s: Node, ops: seq<DataOp>)
    requires NoEmptyValue(s.data)
    requires forall i :: 0 <= i < |ops| && ops[i].Write? ==> ops[i].value != []
    ensures NoEmptyValue(RunData(s, ops).data)
  {
    hide Less, Put, Delete;
    if ops != [] {
      var t, op := RunData(s, ops[..|ops| - 1]).data, ops[|ops| - 1];
      ValuesStayNonEmpty(s, ops[..|ops| - 1]);
      NonEmptyValueKept(t, op.key, if op.Write? then op.value else [0]);
    }
  }

  lemma NonEmptyValueKept(t: Table<Bytes>, k: Bytes, v: Bytes)
    requires NoEmptyValue(t) && v != []
    ensures NoEmptyValue(Put(t, k, v)) && NoEmptyValue(Delete(t, k))
  {
    hide Less, Seek;
  }

  /** So with non-empty values, which are all the console can give, the counter always is the full scan. */
  lemma CounterAgreesWithScan(s: Node, ops: seq<DataOp>)
    requires NoEmptyValue(s.data) && Counted(s)
    requires forall i :: 0 <= i < |ops| && ops[i].Write? ==> ops[i].value != []
    ensures Counted(RunData(s, ops))
  {
    forall i | 0 <= i < |ops|
      ensures !HitsEmpty(s, ops, i)
    {
      ValuesStayNonEmpty(s, ops[..i]);
    }
    CounterExactIff(s, ops);
  }

  // ---------- log

  function WriteLog(s: Node, r: Log): Node {
    s.(log := Put(s.log, EncLog(r), []))
  }

  function ClearLog(s: Node): Node {
    if s.log == [] then s else s.(log := Delete(s.log, s.log[0].key))
  }

  /** The first record in encoded byte order, ERROR when there is none; None if it does not decode. */
  function GetLog(s: Node): Option<Log> {
    if s.log == [] then Some(Log(ERROR, [], [])) else DecLog(s.log[0].key)
  }

  function Apply(s: Node, r: Option<Log>): Node {
    match r
    case None => s
    case Some(r) =>
      if r.kind == PUT then PutData(s, r.key, r.value)
      else if r.kind == DELETE then DeleteData(s, r.key)
      else s
  }

  function Commit(s: Node): Node {
    ClearLog(Apply(s, GetLog(s)))
  }

  // ---------- prediction

  function FirstKey(t: Table<Bytes>): Bytes {
    if t == [] then [] else t[0].key
  }

  function LastKey(t: Table<Bytes>): Bytes {
    if t == [] then [] else t[|t| - 1].key
  }

  /** The smallest and largest key a node announces for a logged operation before it is committed. */
  function Predict(t: Table<Bytes>, r: Log): (Bytes, Bytes) {
    var lo, hi := FirstKey(t), LastKey(t);
    if r.kind == PUT then
      if lo == [] then (r.key, r.key) else (Min(lo, r.key), Max(r.key, hi))
    else
      (if r.key == lo then (if |t| > 1 then t[1].key else []) else lo,
       if r.key == hi then (if |t| > 1 then t[|t| - 2].key else []) else hi)
  }

  ghost predicate NonEmptyKeys(t: Table<Bytes>) {
    forall i :: 0 <= i < |t| ==> t[i].key != []
  }

  lemma PutEndKeys(t: Table<Bytes>, k: Bytes, v: Bytes)
    requires Sorted(t) && t != []
    ensures Put(t, k, v)[0].key == Min(t[0].key, k)
    ensures Put(t, k, v)[|Put(t, k, v)| - 1].key == Max(k, t[|t| - 1].key)
  {
    var p, q := Seek(t, k), Put(t, k, v);
    var n := |t| - 1;
    SeekSplits(t, k);
    if p == 0 {
      Trichotomy(k, t[0].key);
    } else {
      LessAsymmetric(t[0].key, k);
    }
    if p <= n && t[p].key != k {
      assert q[|q| - 1] == t[n];
    } else if p == n + 1 {
      LessAsymmetric(t[n].key, k);
    } else {
      LessIrreflexive(k);
    }
  }

  lemma DeleteEndKeys(t: Table<Bytes>, k: Bytes)
    requires Sorted(t)
    ensures FirstKey(Delete(t, k))
         == (if t != [] && t[0].key == k then (if |t| > 1 then t[1].key else []) else FirstKey(t))
    ensures LastKey(Delete(t, k))
         == (if t != [] && t[|t| - 1].key == k then (if |t| > 1 then t[|t| - 2].key else []) else LastKey(t))
  {
    hide Less, Delete, Sorted;
    if t != [] && (k == t[0].key || k == t[|t| - 1].key) {
      DeleteEnds(t);
      DistinctEnds(t);
    } else if t != [] {
      InnerDelete(t, k);
    } else {
      DeleteNothing(k);
    }
  }

  lemma DistinctEnds(t: Table<Bytes>)
    requires Sorted(t) && t != []
    ensures t[0].key == t[|t| - 1].key <==> |t| == 1
  {
    LessIrreflexive(t[0].key);
  }

  lemma InnerDelete(t: Table<Bytes>, k: Bytes)
    requires t != [] && k != t[0].key && k != t[|t| - 1].key
    ensures var d := Delete(t, k); d != [] && d[0] == t[0] && d[|d| - 1] == t[|t| - 1]
  {
    hide Less, Sorted, SplitAt;
    if Has(t, k) {
      var p := Seek(t, k);
      assert 0 < p < |t| - 1;
      CutInside(t, p);
    }
  }

  lemma CutInside(t: Table<Bytes>, p: nat)
    requires 0 < p < |t| - 1
    ensures var d := Splice(t, p, p + 1, []); d != [] && d[0] == t[0] && d[|d| - 1] == t[|t| - 1]
  {
  }

  lemma DeleteNothing(k: Bytes)
    ensures Delete<Bytes>([], k) == []
  {
  }

  /** The announced bounds of a put or a delete are the ends of the resulting table. */
  lemma PutOutcome(t: Table<Bytes>, r: Log)
    requires Sorted(t) && NonEmptyKeys(t) && r.key != [] && r.kind == PUT
    ensures var u := Put(t, r.key, r.value);
            u != [] && Predict(t, r) == (FirstKey(u), LastKey(u)) && FirstKey(u) != [] && LastKey(u) != []
  {
    hide Less, Seek;
    if t != [] {
      PutEndKeys(t, r.key, r.value);
    }
  }

  lemma DeleteOutcome(t: Table<Bytes>, r: Log)
    requires Sorted(t) && NonEmptyKeys(t) && r.key != [] && r.kind == DELETE
    ensures var u := Delete(t, r.key);
            && Predict(t, r) == (FirstKey(u), LastKey(u))
            && (u == [] <==> FirstKey(u) == []) && (u == [] <==> LastKey(u) == [])
  {
    hide Less, Seek, Sorted;
    DeleteEndKeys(t, r.key);
  }

  /** The announced bounds are exactly the first and last key of the node's data once the operation has
      been committed, and both are empty exactly when that leaves the node empty. */
  lemma PredictionIsOutcome(s: Node, r: Log)
    requires Sorted(s.data) && NonEmptyKeys(s.data) && s.log == []
    requires r.Fits() && r.key != [] && (r.kind == PUT || r.kind == DELETE)
    ensures var t := Commit(WriteLog(s, r)).data;
            && Predict(s.data, r) == (FirstKey(t), LastKey(t))
            && (t == [] <==> FirstKey(t) == []) && (t == [] <==> LastKey(t) == [])
  {
    hide Less, Put, Delete, Predict, Commit, WriteLog, EncLog, Sorted, NonEmptyKeys;
    LogThenCommit(s, r);
    if r.kind == PUT {
      PutOutcome(s.data, r);
    } else {
      DeleteOutcome(s.data, r);
    }
  }

  // ---------- protocol laws

  lemma FirstRecord(s: Node, r: Log)
    requires s.log == [] && r.Fits()
    ensures WriteLog(s, r).log == [Entry(EncLog(r), [])]
    ensures GetLog(WriteLog(s, r)) == Some(r)
  {
    PutFront(s.log, EncLog(r), []);
    LogRoundTrip(r, []);
    assert EncLog(r) + [] == EncLog(r);
  }

  lemma ClearOne(s: Node, e: Entry<Bytes>)
    requires s.log == [e]
    ensures ClearLog(s) == s.(log := [])
  {
    LessIrreflexive(e.key);
    assert Delete([e], e.key) == [];
  }

  /** Logging and committing on an idle node performs exactly the logged operation. */
  lemma LogThenCommit(s: Node, r: Log)
    requires s.log == [] && r.Fits()
    ensures Commit(WriteLog(s, r)) == Apply(s, Some(r))
  {
    hide Less, EncLog, DecLog, Put, Delete, Seek;
    FirstRecord(s, r);
    var w := WriteLog(s, r);
    ClearOne(Apply(w, Some(r)), Entry(EncLog(r), []));
  }

  /** What a node stands for: its data with the pending record, if any, already applied. */
  function Logical(s: Node): Table<Bytes> {
    Apply(s, GetLog(s)).data
  }

  /** LOG changes what an idle node stands for by exactly the logged operation. */
  lemma LogShowsOperation(s: Node, r: Log)
    requires s.log == [] && r.Fits()
    ensures Logical(WriteLog(s, r)) == Apply(s, Some(r)).data
  {
    FirstRecord(s, r);
  }

  /** COMMIT never changes what a node stands for while at most one record is pending. */
  lemma CommitKeepsLogical(s: Node)
    requires |s.log| <= 1
    ensures Logical(Commit(s)) == Logical(s) && Commit(s).log == []
  {
    var a := Apply(s, GetLog(s));
    if s.log != [] {
      ClearOne(a, s.log[0]);
    }
  }

  /** DEL_LOG takes back the latest LOG exactly when that record sorts before every other pending one;
      so on an idle node always. */
  lemma DelLogUndoesLog(s: Node, r: Log)
    requires Sorted(s.log)
    ensures ClearLog(WriteLog(s, r)) == s <==> AllAbove(s.log, EncLog(r))
  {
    if AllAbove(s.log, EncLog(r)) {
      PutFront(s.log, EncLog(r), []);
      SeekHit(WriteLog(s, r).log, 0);
    } else {
      DropFirstDiffers(s.log, EncLog(r));
    }
  }

  lemma DropFirstDiffers(t: Table<Bytes>, k: Bytes)
    requires Sorted(t) && !AllAbove(t, k)
    ensures Put(t, k, []) != []
    ensures Delete(Put(t, k, []), Put(t, k, [])[0].key) != t
  {
    var w := Put(t, k, []);
    SeekSplits(t, k);
    DeleteEnds(w);
    if Seek(t, k) == 0 {
      assert |w[1..]| < |t|;
    } else {
      assert w[0] == t[0];
      LessIrreflexive(t[0].key);
      assert Less(w[0].key, w[1].key);
      assert w[1..][0] != t[0];
    }
  }

  /** Aborting is harmless to a node exactly if nothing was pending on it: LOG, DEL_LOG and then COMMIT
      leave data, counter and log as they were if and only if the log was empty, because committing an
      empty log applies nothing. */
  lemma AbortIsHarmless(a: Node, r: Log)
    requires Sorted(a.log)
    ensures Commit(ClearLog(WriteLog(a, r))) == a <==> a.log == []
  {
    if a.log == [] {
      DelLogUndoesLog(a, r);
    } else {
      AbortShortens(a, r);
    }
  }

  lemma ClearShortens(s: Node)
    requires Sorted(s.log)
    ensures |ClearLog(s).log| == if s.log == [] then 0 else |s.log| - 1
    ensures Sorted(ClearLog(s).log)
  {
    if s.log != [] {
      DeleteEnds(s.log);
    }
  }

  lemma ApplyKeepsLog(s: Node, r: Option<Log>)
    ensures Apply(s, r).log == s.log
  {
    hide Less, Put, Delete;
  }

  lemma WriteLengthens(a: Node, r: Log)
    requires Sorted(a.log)
    ensures Sorted(WriteLog(a, r).log) && 1 <= |WriteLog(a, r).log| <= |a.log| + 1
  {
    hide Less, Seek, EncLog;
  }

  lemma AbortShortens(a: Node, r: Log)
    requires Sorted(a.log) && a.log != []
    ensures |Commit(ClearLog(WriteLog(a, r))).log| < |a.log|
  {
    hide Less, Sorted, WriteLog, ClearLog, Apply, GetLog;
    var d := ClearLog(WriteLog(a, r));
    WriteLengthens(a, r);
    ClearShortens(WriteLog(a, r));
    ApplyKeepsLog(d, GetLog(d));
    ClearShortens(Apply(d, GetLog(d)));
  }

  /** From the moment both LOG steps of a migration are done, the moving key is in exactly one logical
      node, the receiving one, through each commit that follows. */
  lemma MovingKeyInOneNode(a: Node, b: Node, k: Bytes, v: Bytes)
    requires a.log == [] && b.log == [] && Sorted(a.data) && Sorted(b.data)
    requires EntryFits(k, v) && Find(a.data, k) == Some(v)
    ensures var a1, b1 := WriteLog(a, Log(DELETE, k, [])), WriteLog(b, Log(PUT, k, v));
            && Find(Logical(a1), k) == None && Find(Logical(b1), k) == Some(v)
            && Logical(Commit(a1)) == Logical(a1) && Logical(Commit(b1)) == Logical(b1)
            && Commit(a1).data == Logical(a1) && Commit(b1).data == Logical(b1)
            && (forall x :: x != k ==>
                  Find(Logical(a1), x) == Find(a.data, x) && Find(Logical(b1), x) == Find(b.data, x))
  {
    var r, q := Log(DELETE, k, []), Log(PUT, k, v);
    LogShowsOperation(a, r);
    LogShowsOperation(b, q);
    FirstRecord(a, r);
    FirstRecord(b, q);
    CommitKeepsLogical(WriteLog(a, r));
    CommitKeepsLogical(WriteLog(b, q));
    forall x
      ensures Find(Delete(a.data, k), x) == if x == k then None else Find(a.data, x)
      ensures Find(Put(b.data, k, v), x) == if x == k then Some(v) else Find(b.data, x)
    {
      FindDelete(a.data, k, x);
      FindPut(b.data, k, v, x);
    }
  }

  // ---------- requests

  function Handle(s: Node, q: Request): Node {
    match q
    case LogReq(r) => if r.kind == PUT || r.kind == DELETE then WriteLog(s, r) else s
    case CommitLog => Commit(s)
    case DelLog => ClearLog(s)
    case _ => s
  }

  function Answer(s: Node, q: Request): Reply {
    match q
    case Get(k) => Value(GetData(s.data, k))
    case LogReq(r) =>
      if r.kind == PUT || r.kind == DELETE then
        var (lo, hi) := Predict(s.data, r);
        Logged(lo, hi)
      else Ack
    case CommitLog => Ack
    case DelLog => Ack
    case Size => Number(s.size)
    case LessOrEqualOne => Number(if |s.data| <= 1 then 1 else 0)
    case MaxKey => if s.data == [] then Pair([], []) else Pair(s.data[|s.data| - 1].key, s.data[|s.data| - 1].value)
    case MinKey => if s.data == [] then Pair([], []) else Pair(s.data[0].key, s.data[0].value)
  }

  function RunRequests(s: Node, qs: seq<Request>): Node {
    if qs == [] then s else Handle(RunRequests(s, qs[..|qs| - 1]), qs[|qs| - 1])
  }

  lemma OneMoreRequest(s: Node, qs: seq<Request>, q: Request)
    ensures RunRequests(s, qs + [q]) == Handle(RunRequests(s, qs), q)
    ensures RunRequests(s, []) == s
  {
    hide Handle;
    assert (qs + [q])[..|qs|] == qs;
  }

  lemma ThreeRequests(s: Node, a: Request, b: Request, c: Request)
    ensures RunRequests(s, [a, b]) == Handle(Handle(s, a), b)
    ensures RunRequests(s, [a, b, c]) == Handle(Handle(Handle(s, a), b), c)
  {
    hide Handle, RunRequests;
    assert [] + [a] == [a] && [a] + [b] == [a, b] && [a, b] + [c] == [a, b, c];
    OneMoreRequest(s, [], a);
    OneMoreRequest(s, [a], b);
    OneMoreRequest(s, [a, b], c);
  }

  /** The request DEL_LOG takes the latest LOG back exactly when its record sorts before all pending ones,
      and a COMMIT behind the two then changes nothing exactly when the log was empty. */
  lemma RollbackByRequests(s: Node, r: Log)
    requires Sorted(s.log) && (r.kind == PUT || r.kind == DELETE)
    ensures RunRequests(s, [LogReq(r), DelLog]) == s <==> AllAbove(s.log, EncLog(r))
    ensures RunRequests(s, [LogReq(r), DelLog, CommitLog]) == s <==> s.log == []
  {
    hide Less, WriteLog, ClearLog, Commit, EncLog, Sorted;
    ThreeRequests(s, LogReq(r), DelLog, CommitLog);
    DelLogUndoesLog(s, r);
    AbortIsHarmless(s, r);
  }

  /** The record a request sequence leaves pending. */
  function Pending(qs: seq<Request>): Option<Log> {
    if qs == [] then None
    else match qs[|qs| - 1]
      case LogReq(r) => Some(r)
      case CommitLog => None
      case DelLog => None
      case _ => Pending(qs[..|qs| - 1])
  }

  /** The control node's discipline: a put or delete is logged only while nothing is pending. */
  ghost predicate Disciplined(qs: seq<Request>) {
    forall i :: 0 <= i < |qs| && qs[i].LogReq? ==>
      && Pending(qs[..i]) == None
      && qs[i].rec.Fits() && (qs[i].rec.kind == PUT || qs[i].rec.kind == DELETE)
  }

  /** Along every such sequence the log holds the last record written and nothing else, or nothing. */
  lemma {:induction false} OnePendingRecord(s: Node, qs: seq<Request>)
    requires s.log == [] && Disciplined(qs)
    ensures RunRequests(s, qs).log == (match Pending(qs) case None => [] case Some(r) => [Entry(EncLog(r), [])])
    ensures Pending(qs).Some? ==> GetLog(RunRequests(s, qs)) == Pending(qs)
    ensures |RunRequests(s, qs).log| <= 1
  {
    if qs != [] {
      var n := |qs| - 1;
      forall i | 0 <= i < n && qs[..n][i].LogReq?
        ensures Pending(qs[..n][..i]) == None
      {
        assert qs[..n][..i] == qs[..i];
      }
      OnePendingRecord(s, qs[..n]);
      var t := RunRequests(s, qs[..n]);
      match qs[n]
      case LogReq(r) => FirstRecord(t, r);
      case CommitLog => CommitKeepsLogical(t);
      case DelLog =>
        if t.log != [] {
          ClearOne(t, t.log[0]);
        }
      case _ =>
    }
  }

  /** The requests qs, issued in that discipline, brought a node from s0, its log empty, to s. */
  ghost predicate Traced(s0: Node, qs: seq<Request>, s: Node) {
    s0.log == [] && Disciplined(qs) && s == RunRequests(s0, qs)
  }

  /** A sender that logs only on nodes whose log is empty keeps the discipline. */
  lemma TraceStep(s0: Node, qs: seq<Request>, s: Node, q: Request)
    requires Traced(s0, qs, s)
    requires q.LogReq? ==> s.log == [] && q.rec.Fits() && (q.rec.kind == PUT || q.rec.kind == DELETE)
    ensures Traced(s0, qs + [q], Handle(s, q))
  {
    hide Handle, EncLog, GetLog;
    OnePendingRecord(s0, qs);
    var all := qs + [q];
    assert all[..|qs|] == qs;
    forall i | 0 <= i < |qs|
      ensures all[..i] == qs[..i] && all[i] == qs[i]
    {
    }
  }
}
