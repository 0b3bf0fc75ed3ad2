/** Requests and replies as they travel: a command word followed by its arguments. */
module Wire {
  import opened Bytes
  import opened Tables
  import opened HandleBuff
  import opened Records
  import opened StoreSpec

  const GET_WORD: Bytes := [103, 101, 116]
  const LOG_WORD: Bytes := [108, 111, 103]
  const COMMIT_LOG_WORD: Bytes := [67, 76, 71]
  const DEL_LOG_WORD: Bytes := [100, 108, 103]
  const SIZE_WORD: Bytes := [115, 105, 122, 101]
  const LESS_OR_EQUAL_ONE_WORD: Bytes := [76, 69, 79]
  const MAX_KEY_WORD: Bytes := [109, 97, 120]
  const MIN_KEY_WORD: Bytes := [109, 105, 110]
  const OK_WORD: Bytes := [111, 107]

  function Word(q: Request): (w: Bytes)
    ensures NulFree(w) && 3 <= |w| <= 4
  {
    match q
    case Get(_) => GET_WORD
    case LogReq(_) => LOG_WORD
    case CommitLog => COMMIT_LOG_WORD
    case DelLog => DEL_LOG_WORD
    case Size => SIZE_WORD
    case LessOrEqualOne => LESS_OR_EQUAL_ONE_WORD
    case MaxKey => MAX_KEY_WORD
    case MinKey => MIN_KEY_WORD
  }

  function EncArgs(q: Request): Bytes {
    match q
    case Get(k) => EncStr(k)
    case LogReq(r) => EncLog(r)
    case _ => []
  }

  function EncRequest(q: Request): Bytes {
    EncStr(Word(q)) + EncArgs(q)
  }

  /** The store node's dispatch on the command word. */
  function DecRequest(b: Bytes): Option<Request> {
    match DecStr(b)
    case None => None
    case Some((w, rest)) => DecArgs(w, rest)
  }

  function DecArgs(w: Bytes, rest: Bytes): Option<Request> {
    if w == GET_WORD then (match DecStr(rest) case None => None case Some((k, _)) => Some(Get(k)))
    else if w == LOG_WORD then (match DecLog(rest) case None => None case Some(r) => Some(LogReq(r)))
    else if w == COMMIT_LOG_WORD then Some(CommitLog)
    else if w == SIZE_WORD then Some(Size)
    else if w == LESS_OR_EQUAL_ONE_WORD then Some(LessOrEqualOne)
    else if w == MAX_KEY_WORD then Some(MaxKey)
    else if w == MIN_KEY_WORD then Some(MinKey)
    else if w == DEL_LOG_WORD then Some(DelLog)
    else None
  }

  predicate RequestFits(q: Request) {
    match q
    case Get(k) => LookupFits(k)
    case LogReq(r) => r.Fits() && KeyFits(r.key)
    case _ => true
  }

  /** Every request that fits the buffer is understood by the store node as the one that was sent,
      whatever an earlier and longer message left behind it. */
  lemma RequestRoundTrip(q: Request, stale: Bytes)
    requires RequestFits(q)
    ensures |EncRequest(q)| <= MAXLINE
    ensures DecRequest(EncRequest(q) + stale) == Some(q)
  {
    var rest := EncArgs(q) + stale;
    assert EncRequest(q) + stale == EncStr(Word(q)) + rest;
    StrRoundTrip(Word(q), rest);
    match q
    case Get(k) => StrRoundTrip(k, stale);
    case LogReq(r) => LogRoundTrip(r, stale);
    case _ =>
  }

  function EncReply(a: Reply): Bytes {
    match a
    case Value(v) => EncStr(v)
    case Logged(lo, hi) => EncStr(OK_WORD) + EncStr(lo) + EncStr(hi)
    case Ack => EncStr(OK_WORD)
    case Number(n) => EncInt(n)
    case Pair(k, v) => EncStr(k) + EncStr(v)
  }

  predicate ReplyFits(a: Reply) {
    match a
    case Value(v) => NulFree(v) && |v| + 5 <= MAXLINE
    case Logged(lo, hi) => NulFree(lo) && NulFree(hi) && |lo| + |hi| + 17 <= MAXLINE
    case Ack => true
    case Number(n) => IsInt32(n)
    case Pair(k, v) => NulFree(k) && NulFree(v) && |k| + |v| + 10 <= MAXLINE
  }

  /** How the control node reads the reply to a request it sent. It takes an answer to LOG to announce bounds. */
  function DecReply(q: Request, b: Bytes): Option<Reply> {
    match q
    case Get(_) => (match DecStr(b) case None => None case Some((v, _)) => Some(Value(v)))
    case LogReq(_) => DecLogged(b)
    case CommitLog => DecAck(b)
    case DelLog => DecAck(b)
    case Size => DecNumber(b)
    case LessOrEqualOne => DecNumber(b)
    case MaxKey => (match DecPair(b) case None => None case Some((k, v)) => Some(Pair(k, v)))
    case MinKey => (match DecPair(b) case None => None case Some((k, v)) => Some(Pair(k, v)))
  }

  function DecLogged(b: Bytes): Option<Reply> {
    match DecStr(b)
    case None => None
    case Some((ans, rest)) =>
      if ans != OK_WORD then None
      else match DecPair(rest) case None => None case Some((lo, hi)) => Some(Logged(lo, hi))
  }

  function DecAck(b: Bytes): Option<Reply> {
    match DecStr(b) case None => None case Some((ans, _)) => if ans == OK_WORD then Some(Ack) else None
  }

  function DecNumber(b: Bytes): Option<Reply> {
    if |b| < 4 then None else Some(Number(DecInt(b)))
  }

  /** The kind of reply each request is answered with. */
  predicate RepliesTo(q: Request, a: Reply) {
    match q
    case Get(_) => a.Value?
    case LogReq(_) => a.Logged?
    case CommitLog => a.Ack?
    case DelLog => a.Ack?
    case Size => a.Number?
    case LessOrEqualOne => a.Number?
    case MaxKey => a.Pair?
    case MinKey => a.Pair?
  }

  /** A record that can be logged: any other kind is neither written nor answered with bounds. */
  predicate Loggable(q: Request) {
    q.LogReq? ==> q.rec.kind == PUT || q.rec.kind == DELETE
  }

  function DecPair(b: Bytes): Option<(Bytes, Bytes)> {
    match DecStr(b)
    case None => None
    case Some((x, rest)) => match DecStr(rest) case None => None case Some((y, _)) => Some((x, y))
  }

  lemma PairRoundTrip(x: Bytes, y: Bytes, stale: Bytes)
    requires NulFree(x) && NulFree(y) && |x| + |y| + 10 <= MAXLINE
    ensures DecStr(EncStr(x) + EncStr(y) + stale) == Some((x, EncStr(y) + stale))
    ensures DecPair(EncStr(x) + EncStr(y) + stale) == Some((x, y))
  {
    assert EncStr(x) + EncStr(y) + stale == EncStr(x) + (EncStr(y) + stale);
    StrRoundTrip(x, EncStr(y) + stale);
    StrRoundTrip(y, stale);
  }

  /** Every reply that fits the buffer is read as the one that was given, knowing only what was asked. */
  lemma ReplyRoundTrip(q: Request, a: Reply, stale: Bytes)
    requires ReplyFits(a) && RepliesTo(q, a)
    ensures |EncReply(a)| <= MAXLINE
    ensures DecReply(q, EncReply(a) + stale) == Some(a)
  {
    match a
    case Value(v) => StrRoundTrip(v, stale);
    case Logged(lo, hi) =>
      var rest := EncStr(lo) + EncStr(hi) + stale;
      assert EncReply(a) + stale == EncStr(OK_WORD) + rest;
      StrRoundTrip(OK_WORD, rest);
      PairRoundTrip(lo, hi, stale);
    case Ack => StrRoundTrip(OK_WORD, stale);
    case Number(n) => IntRoundTrip(n, stale);
    case Pair(k, v) => PairRoundTrip(k, v, stale);
  }

  /** Everything a node holds fits the buffers, and its counter the integer field. */
  ghost predicate AllFit(t: Table<Bytes>) {
    forall i :: 0 <= i < |t| ==> EntryFits(t[i].key, t[i].value)
  }

  ghost predicate NodeFits(s: Node) {
    Sorted(s.data) && Sorted(s.log) && AllFit(s.data) && IsInt32(s.size)
  }

  /** No reply a store node gives can overrun the buffers. */
  lemma AnswersFit(s: Node, q: Request)
    requires NodeFits(s) && RequestFits(q)
    ensures ReplyFits(Answer(s, q)) && (Loggable(q) ==> RepliesTo(q, Answer(s, q)))
  {
    if q.Get? && Find(s.data, q.key).Some? {
      assert EntryFits(s.data[Seek(s.data, q.key)].key, s.data[Seek(s.data, q.key)].value);
    }
    if s.data != [] {
      assert KeyFits(s.data[0].key) && KeyFits(s.data[|s.data| - 1].key);
      if |s.data| > 1 {
        assert KeyFits(s.data[1].key) && KeyFits(s.data[|s.data| - 2].key);
      }
    }
  }
}
