/** The two records that are kept in databases in encoded form: log records and directory entries. */
module Records {
  import opened Bytes
  import opened Tables
  import opened HandleBuff

  // LOG_KIND
  const PUT := 0
  const DELETE := 1
  const ERROR := 2

  /** A key that is stored travels twice in one LOG reply behind "ok" and twice in one directory entry. */
  predicate KeyFits(k: Bytes) {
    0 < |k| && NulFree(k) && 2 * |k| + 17 <= MAXLINE
  }

  /** A key that is only asked for travels in one GET request. */
  predicate LookupFits(k: Bytes) {
    NulFree(k) && |k| + 13 <= MAXLINE
  }

  /** A key and a value travel together in one LOG request. */
  predicate EntryFits(k: Bytes, v: Bytes) {
    KeyFits(k) && 0 < |v| && NulFree(v) && |k| + |v| + 22 <= MAXLINE
  }

  datatype Log = Log(kind: int, key: Bytes, value: Bytes) {

    predicate Fits() {
      IsInt32(kind) && NulFree(key) && NulFree(value) && |key| + |value| + 22 <= MAXLINE
    }

    method ToSlice(buff: array<byte>, at: nat) returns (len: int)
      requires at + |EncLog(this)| <= buff.Length
      modifies buff
      ensures len == |EncLog(this)|
      ensures Wrote(old(buff[..]), buff[..], at, EncLog(this))
    {
      ghost var b0 := buff[..];
      var next;
      next, len := InsertInt(buff, at, kind, 0);
      ghost var b1 := buff[..];
      next, len := InsertStr(buff, next, key, len);
      ghost var b2 := buff[..];
      WroteTwice(b0, b1, b2, at, EncInt(kind), EncStr(key));
      next, len := InsertStr(buff, next, value, len);
      WroteTwice(b0, b2, buff[..], at, EncInt(kind) + EncStr(key), EncStr(value));
    }

    static method FromBuff(buff: array<byte>, at: nat) returns (r: Log)
      requires at <= buff.Length && DecLog(buff[at..]).Some?
      ensures DecLog(buff[at..]) == Some(r)
    {
      ghost var b := buff[at..];
      var kind, key, value, next;
      kind, next := GetInt(buff, at);
      assert buff[next..] == b[4..];
      key, next := GetString(buff, next);
      value, next := GetString(buff, next);
      r := Log(kind, key, value);
    }
  }

  function EncLog(r: Log): (b: Bytes)
    ensures |b| == 14 + |r.key| + |r.value|
  {
    EncInt(r.kind) + EncStr(r.key) + EncStr(r.value)
  }

  function DecLog(b: Bytes): Option<Log> {
    if |b| < 4 then None
    else match DecStr(b[4..])
      case None => None
      case Some((key, rest)) =>
        match DecStr(rest)
        case None => None
        case Some((value, _)) => Some(Log(DecInt(b), key, value))
  }

  /** Both decoders read back what to_slice wrote, whatever stale bytes follow it in the buffer. */
  lemma LogRoundTrip(r: Log, rest: Bytes)
    requires r.Fits()
    ensures DecLog(EncLog(r) + rest) == Some(r)
  {
    var b := EncLog(r) + rest;
    var tail := EncStr(r.value) + rest;
    assert b == EncInt(r.kind) + (EncStr(r.key) + tail);
    IntRoundTrip(r.kind, EncStr(r.key) + tail);
    assert b[4..] == EncStr(r.key) + tail;
    StrRoundTrip(r.key, tail);
    StrRoundTrip(r.value, rest);
  }

  lemma LogInjective(r: Log, q: Log)
    requires r.Fits() && q.Fits() && EncLog(r) == EncLog(q)
    ensures r == q
  {
    LogRoundTrip(r, []);
    LogRoundTrip(q, []);
  }

  datatype Meta = Meta(min: Bytes, max: Bytes, fd: int) {

    predicate Fits() {
      KeyFits(min) && KeyFits(max) && IsInt32(fd)
    }

    method ToSlice(buff: array<byte>) returns (len: int)
      requires |EncMeta(this)| <= buff.Length
      modifies buff
      ensures len == |EncMeta(this)|
      ensures Wrote(old(buff[..]), buff[..], 0, EncMeta(this))
    {
      ghost var b0 := buff[..];
      var next;
      next, len := InsertStr(buff, 0, min, 0);
      ghost var b1 := buff[..];
      next, len := InsertStr(buff, next, max, len);
      ghost var b2 := buff[..];
      WroteTwice(b0, b1, b2, 0, EncStr(min), EncStr(max));
      next, len := InsertInt(buff, next, fd, len);
      WroteTwice(b0, b2, buff[..], 0, EncStr(min) + EncStr(max), EncInt(fd));
    }
  }

  function EncMeta(m: Meta): (b: Bytes)
    ensures |b| == 14 + |m.min| + |m.max|
  {
    EncStr(m.min) + EncStr(m.max) + EncInt(m.fd)
  }

  function DecMeta(b: Bytes): Option<Meta> {
    match DecStr(b)
    case None => None
    case Some((min, rest)) =>
      match DecStr(rest)
      case None => None
      case Some((max, tail)) => if |tail| < 4 then None else Some(Meta(min, max, DecInt(tail)))
  }

  lemma MetaRoundTrip(m: Meta, rest: Bytes)
    requires m.Fits()
    ensures DecMeta(EncMeta(m) + rest) == Some(m)
  {
    var tail := EncInt(m.fd) + rest;
    assert EncMeta(m) + rest == EncStr(m.min) + (EncStr(m.max) + tail);
    StrRoundTrip(m.min, EncStr(m.max) + tail);
    StrRoundTrip(m.max, tail);
    IntRoundTrip(m.fd, rest);
  }

  lemma MetaInjective(m: Meta, q: Meta)
    requires m.Fits() && q.Fits() && EncMeta(m) == EncMeta(q)
    ensures m == q
  {
    MetaRoundTrip(m, []);
    MetaRoundTrip(q, []);
    assert EncMeta(m) + [] == EncMeta(q) + [];
  }
}
