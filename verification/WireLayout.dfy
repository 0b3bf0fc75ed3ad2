/** What travels, byte by byte, stated without the encoders' own helpers and constants. */
module WireLayout {
  import opened Bytes
  import opened HandleBuff
  import opened Records
  import opened StoreSpec
  import opened Wire

  /** The bytes of an ASCII string. */
  function Ascii(s: string): (b: Bytes)
    requires forall i :: 0 <= i < |s| ==> s[i] < 128 as char
    ensures |b| == |s| && forall i :: 0 <= i < |s| ==> b[i] as int == s[i] as int
  {
    seq(|s|, i requires 0 <= i < |s| => s[i] as int as byte)
  }

  /** At offset at stands the 32-bit integer n: low byte first, negative numbers in two's complement. */
  predicate IntAt(b: Bytes, at: nat, n: int) {
    && at + 4 <= |b|
    && b[at] as int + 256 * b[at + 1] as int + 65536 * b[at + 2] as int + 16777216 * b[at + 3] as int
       == (if n < 0 then n + 4294967296 else n)
  }

  /** At offset at stands the string s: its length with the NUL, its bytes, the NUL. */
  predicate StrAt(b: Bytes, at: nat, s: Bytes) {
    && at + 4 + |s| + 1 <= |b|
    && IntAt(b, at, |s| + 1)
    && b[at + 4..at + 4 + |s|] == s
    && b[at + 4 + |s|] == 0
  }

  lemma IntLayout(a: Bytes, n: int, c: Bytes)
    requires IsInt32(n)
    ensures IntAt(a + EncInt(n) + c, |a|, n)
  {
    FourDigits(n % 0x1_0000_0000);
    assert n % 0x1_0000_0000 == if n < 0 then n + 0x1_0000_0000 else n;
    var e, b := EncInt(n), a + EncInt(n) + c;
    assert b[|a|] == e[0] && b[|a| + 1] == e[1] && b[|a| + 2] == e[2] && b[|a| + 3] == e[3];
  }

  lemma StrLayoutAt(a: Bytes, s: Bytes, c: Bytes)
    requires |s| < MAXLINE
    ensures StrAt(a + EncStr(s) + c, |a|, s)
  {
    hide EncInt, IntAt;
    IntLayout(a, |s| + 1, s + [NUL] + c);
    var e, b := EncInt(|s| + 1), a + EncStr(s) + c;
    assert b == a + e + (s + [NUL] + c);
    assert b == (a + e) + s + ([NUL] + c);
    assert b[|a| + 4..] == s + ([NUL] + c);
    assert b[|a| + 4 + |s|] == b[|a| + 4..][|s|];
  }

  /** A log record: kind, key, value. The kind is 0 for a put and 1 for a delete. */
  lemma LogLayout(a: Bytes, r: Log, c: Bytes)
    requires r.Fits() && (r.kind == PUT || r.kind == DELETE)
    ensures var b := a + EncLog(r) + c;
            && |b| == |a| + 4 + (4 + |r.key| + 1) + (4 + |r.value| + 1) + |c|
            && IntAt(b, |a|, if r.kind == PUT then 0 else 1)
            && StrAt(b, |a| + 4, r.key) && StrAt(b, |a| + 9 + |r.key|, r.value)
  {
    hide EncInt, EncStr, IntAt, StrAt;
    var x, y, z := EncInt(r.kind), EncStr(r.key), EncStr(r.value);
    var b := a + EncLog(r) + c;
    assert b == a + x + (y + z + c);
    assert b == (a + x) + y + (z + c);
    assert b == (a + x + y) + z + c;
    IntLayout(a, r.kind, y + z + c);
    StrLayoutAt(a + x, r.key, z + c);
    StrLayoutAt(a + x + y, r.value, c);
  }

  /** A directory entry: smallest key, largest key, node number. */
  lemma MetaLayout(m: Meta)
    requires m.Fits()
    ensures var b := EncMeta(m);
            && |b| == (4 + |m.min| + 1) + (4 + |m.max| + 1) + 4
            && StrAt(b, 0, m.min) && StrAt(b, 5 + |m.min|, m.max) && IntAt(b, 10 + |m.min| + |m.max|, m.fd)
  {
    hide EncInt, EncStr, IntAt, StrAt;
    var x, y, z := EncStr(m.min), EncStr(m.max), EncInt(m.fd);
    assert EncMeta(m) == [] + x + (y + z) == x + y + z == (x + y) + z + [];
    StrLayoutAt([], m.min, y + z);
    StrLayoutAt(x, m.max, z);
    IntLayout(x + y, m.fd, []);
  }

  /** The command word of each request, as text. */
  function Text(q: Request): string {
    match q
    case Get(_) => "get"
    case LogReq(_) => "log"
    case CommitLog => "CLG"
    case DelLog => "dlg"
    case Size => "size"
    case LessOrEqualOne => "LEO"
    case MaxKey => "max"
    case MinKey => "min"
  }

  lemma WordIsText(q: Request)
    ensures Word(q) == Ascii(Text(q)) && OK_WORD == Ascii("ok")
  {
  }

  /** A request: its word, and behind it the key of a GET or the record of a LOG, and nothing else. */
  lemma RequestLayout(q: Request)
    requires RequestFits(q) && Loggable(q)
    ensures var b, w := EncRequest(q), Ascii(Text(q));
            && StrAt(b, 0, w)
            && match q
               case Get(k) => |b| == 13 + |k| && StrAt(b, 8, k)
               case LogReq(r) =>
                 && |b| == 22 + |r.key| + |r.value| && IntAt(b, 8, if r.kind == PUT then 0 else 1)
                 && StrAt(b, 12, r.key) && StrAt(b, 17 + |r.key|, r.value)
               case Size => |b| == 9
               case _ => |b| == 8
  {
    hide EncStr, IntAt, StrAt, Ascii, EncLog;
    WordIsText(q);
    var x := EncStr(Word(q));
    StrLayoutAt([], Word(q), EncArgs(q));
    assert EncRequest(q) == [] + x + EncArgs(q);
    match q
    case Get(k) =>
      StrLayoutAt(x, k, []);
      assert EncRequest(q) == x + EncStr(k) + [];
    case LogReq(r) =>
      LogLayout(x, r, []);
      assert EncRequest(q) == x + EncLog(r) + [];
    case _ =>
  }

  /** A reply: a value, an integer, a key with its value, or "ok", which the two bounds follow after a LOG. */
  lemma ReplyLayout(a: Reply)
    requires ReplyFits(a)
    ensures var b := EncReply(a);
            match a
            case Value(v) => |b| == 5 + |v| && StrAt(b, 0, v)
            case Logged(lo, hi) =>
              && |b| == 17 + |lo| + |hi|
              && StrAt(b, 0, Ascii("ok")) && StrAt(b, 7, lo) && StrAt(b, 12 + |lo|, hi)
            case Ack => |b| == 7 && StrAt(b, 0, Ascii("ok"))
            case Number(n) => |b| == 4 && IntAt(b, 0, n)
            case Pair(k, v) => |b| == 10 + |k| + |v| && StrAt(b, 0, k) && StrAt(b, 5 + |k|, v)
  {
    hide EncStr, EncInt, IntAt, StrAt, Ascii;
    WordIsText(Size);
    var ok, b := EncStr(OK_WORD), EncReply(a);
    match a
    case Value(v) =>
      StrLayoutAt([], v, []);
      assert b == [] + EncStr(v) + [];
    case Logged(lo, hi) =>
      var x, y := EncStr(lo), EncStr(hi);
      assert b == [] + ok + (x + y) == ok + x + y == (ok + x) + y + [];
      StrLayoutAt([], OK_WORD, x + y);
      StrLayoutAt(ok, lo, y);
      StrLayoutAt(ok + x, hi, []);
    case Ack =>
      StrLayoutAt([], OK_WORD, []);
      assert b == [] + ok + [];
    case Number(n) =>
      IntLayout([], n, []);
      assert b == [] + EncInt(n) + [];
    case Pair(k, v) =>
      var x, y := EncStr(k), EncStr(v);
      assert b == [] + x + y == x + y + [];
      StrLayoutAt([], k, y);
      StrLayoutAt(x, v, []);
  }

  predicate Printable(q: Request) {
    match q
    case Get(k) => NulFree(k)
    case LogReq(r) => IsInt32(r.kind) && NulFree(r.key) && NulFree(r.value)
    case _ => true
  }

  /** A GET or LOG is within the bounds asked for exactly when its bytes fit the buffer of 40960. */
  lemma RequestFillsBuffer(q: Request)
    requires Printable(q)
    ensures |EncRequest(q)| <= 40960 <==> (q.Get? ==> LookupFits(q.key)) && (q.LogReq? ==> q.rec.Fits())
  {
    hide NulFree;
  }

  /** A key may be as long as lets it stand twice in the answer to its LOG, and not a byte longer. */
  lemma KeyFillsReply(k: Bytes)
    requires k != [] && NulFree(k)
    ensures KeyFits(k) <==> |EncReply(Reply.Logged(k, k))| <= 40960
  {
    hide NulFree;
  }
}
