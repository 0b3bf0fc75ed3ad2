/** The wire format: 4-byte little-endian two's-complement integers, and strings as a length that
    counts the terminating NUL followed by the characters and that NUL. */
module HandleBuff {
  import opened Bytes
  import opened Tables

  const MAXLINE := 40960

  predicate IsInt32(a: int) {
    -0x8000_0000 <= a < 0x8000_0000
  }

  function Low(u: nat): byte {
    (u % 256) as byte
  }

  function EncInt(a: int): (r: Bytes)
    ensures |r| == 4
  {
    var u := a % 0x1_0000_0000;
    [Low(u), Low(u / 256), Low(u / 256 / 256), Low(u / 256 / 256 / 256)]
  }

  function DecInt(b: Bytes): (r: int)
    requires |b| >= 4
    ensures IsInt32(r)
  {
    var u := b[0] as int + b[1] as int * 0x100 + b[2] as int * 0x1_0000 + b[3] as int * 0x100_0000;
    if b[3] >= 128 then u - 0x1_0000_0000 else u
  }

  lemma FourDigits(u: nat)
    requires u < 0x1_0000_0000
    ensures u == Low(u) as int + Low(u / 256) as int * 0x100 + Low(u / 256 / 256) as int * 0x1_0000
                 + Low(u / 256 / 256 / 256) as int * 0x100_0000
    ensures Low(u / 256 / 256 / 256) >= 128 <==> u >= 0x8000_0000
  {
    var p, q, r := u / 256, u / 256 / 256, u / 256 / 256 / 256;
    assert u == 256 * p + u % 256 && p == 256 * q + p % 256 && q == 256 * r + q % 256;
    assert r < 256;
  }

  lemma IntRoundTrip(a: int, rest: Bytes)
    requires IsInt32(a)
    ensures DecInt(EncInt(a) + rest) == a
  {
    var u := a % 0x1_0000_0000;
    assert u == if a < 0 then a + 0x1_0000_0000 else a;
    FourDigits(u);
    var e, b := EncInt(a), EncInt(a) + rest;
    assert b[0] == e[0] && b[1] == e[1] && b[2] == e[2] && b[3] == e[3];
  }

  function FirstNul(s: Bytes): (z: nat)
    ensures z <= |s|
    ensures forall i :: 0 <= i < z ==> s[i] != NUL
    ensures z < |s| ==> s[z] == NUL
  {
    if s == [] || s[0] == NUL then 0 else 1 + FirstNul(s[1..])
  }

  lemma FirstNulUnique(s: Bytes, z: nat)
    requires z < |s| && s[z] == NUL
    requires forall i :: 0 <= i < z ==> s[i] != NUL
    ensures FirstNul(s) == z
  {
  }

  function EncStr(s: Bytes): (r: Bytes)
    ensures |r| == 4 + |s| + 1
  {
    EncInt(|s| + 1) + s + [NUL]
  }

  /** One string and what follows it. None where the C++ code reads or writes out of bounds: a length
      that is negative, longer than the buffer or than the local array, or a body with no NUL in it. */
  function DecStr(b: Bytes): Option<(Bytes, Bytes)> {
    if |b| < 4 then None
    else
      var len := DecInt(b);
      if len < 0 || len > MAXLINE || 4 + len > |b| then None
      else
        var body := b[4..4 + len];
        if FirstNul(body) == len then None else Some((body[..FirstNul(body)], b[4 + len..]))
  }

  /** What comes back is the string up to its first NUL, so the round trip holds for NUL-free strings only. */
  lemma StrRoundTrip(s: Bytes, rest: Bytes)
    requires |s| < MAXLINE
    ensures DecStr(EncStr(s) + rest) == Some((s[..FirstNul(s)], rest))
    ensures DecStr(EncStr(s) + rest) == Some((s, rest)) <==> NulFree(s)
  {
    StrLayout(s, rest);
    DecStrIs(EncStr(s) + rest, s, rest);
    NulCut(s);
  }

  lemma DecStrIs(b: Bytes, s: Bytes, rest: Bytes)
    requires |s| < MAXLINE && |b| == 4 + |s| + 1 + |rest|
    requires DecInt(b) == |s| + 1 && b[4..4 + |s| + 1] == s + [NUL] && b[4 + |s| + 1..] == rest
    ensures DecStr(b) == Some((s[..FirstNul(s)], rest))
  {
    FirstNulUnique(s + [NUL], FirstNul(s));
    assert (s + [NUL])[..FirstNul(s)] == s[..FirstNul(s)];
  }

  lemma StrLayout(s: Bytes, rest: Bytes)
    requires |s| < MAXLINE
    ensures DecInt(EncStr(s) + rest) == |s| + 1
    ensures (EncStr(s) + rest)[4..4 + |s| + 1] == s + [NUL]
    ensures (EncStr(s) + rest)[4 + |s| + 1..] == rest
  {
    var e := EncInt(|s| + 1);
    assert EncStr(s) + rest == e + (s + [NUL] + rest);
    IntRoundTrip(|s| + 1, s + [NUL] + rest);
  }

  lemma NulCut(s: Bytes)
    ensures s[..FirstNul(s)] == s <==> NulFree(s)
  {
    if FirstNul(s) == |s| {
      assert s[..|s|] == s;
    } else {
      assert |s[..FirstNul(s)]| != |s|;
    }
  }

  function EncStrs(strs: seq<Bytes>): Bytes {
    if strs == [] then [] else EncStr(strs[0]) + EncStrs(strs[1..])
  }

  function DecStrs(b: Bytes, count: nat): Option<(seq<Bytes>, Bytes)> {
    if count == 0 then Some(([], b))
    else match DecStr(b)
      case None => None
      case Some((s, rest)) =>
        match DecStrs(rest, count - 1)
        case None => None
        case Some((ss, tail)) => Some(([s] + ss, tail))
  }

  /** A list of strings written back to back is read back whole, ending where the writer stopped. */
  lemma {:induction false} StrsRoundTrip(strs: seq<Bytes>, rest: Bytes)
    requires forall i :: 0 <= i < |strs| ==> NulFree(strs[i]) && |strs[i]| < MAXLINE
    ensures DecStrs(EncStrs(strs) + rest, |strs|) == Some((strs, rest))
  {
    if strs == [] {
      assert EncStrs(strs) + rest == rest;
    } else {
      assert EncStrs(strs) + rest == EncStr(strs[0]) + (EncStrs(strs[1..]) + rest);
      StrRoundTrip(strs[0], EncStrs(strs[1..]) + rest);
      StrsRoundTrip(strs[1..], rest);
      assert [strs[0]] + strs[1..] == strs;
    }
  }

  lemma {:induction false} EncStrsAppend(strs: seq<Bytes>, s: Bytes)
    ensures EncStrs(strs + [s]) == EncStrs(strs) + EncStr(s)
  {
    if strs == [] {
      assert EncStrs([s]) == EncStr(s) + EncStrs([]);
    } else {
      assert (strs + [s])[1..] == strs[1..] + [s];
      EncStrsAppend(strs[1..], s);
    }
  }

  /** What a buffer holds after writing `text` at offset `at`. */
  ghost predicate Wrote(before: Bytes, after: Bytes, at: nat, text: Bytes) {
    && at + |text| <= |before| == |after|
    && after[at..at + |text|] == text
    && after[..at] == before[..at]
    && after[at + |text|..] == before[at + |text|..]
  }

  lemma WroteTwice(a: Bytes, b: Bytes, c: Bytes, at: nat, x: Bytes, y: Bytes)
    requires Wrote(a, b, at, x) && Wrote(b, c, at + |x|, y)
    ensures Wrote(a, c, at, x + y)
  {
    var m, e := at + |x|, at + |x| + |y|;
    assert c[..at] == c[..m][..at] == b[..m][..at] == b[..at];
    assert c[at..e] == c[..m][at..] + c[m..e];
    assert c[..m][at..] == b[..m][at..] == b[at..m];
    assert c[e..] == b[e..] == b[m..][|y|..] == a[m..][|y|..] == a[e..];
  }

  /** memcpy into a buffer. */
  method CopyTo(buff: array<byte>, at: nat, text: Bytes)
    requires at + |text| <= buff.Length
    modifies buff
    ensures Wrote(old(buff[..]), buff[..], at, text)
  {
    for i := 0 to |text|
      invariant buff[at..at + i] == text[..i]
      invariant buff[..at] == old(buff[..at])
      invariant buff[at + |text|..] == old(buff[at + |text|..])
    {
      buff[at + i] := text[i];
      assert buff[at..at + i + 1] == buff[at..at + i] + [text[i]];
    }
    assert buff[..][..at] == buff[..at] && buff[..][at..at + |text|] == buff[at..at + |text|];
    assert buff[..][at + |text|..] == buff[at + |text|..];
  }

  method InsertInt(buff: array<byte>, at: nat, a: int, total: int) returns (next: nat, total': int)
    requires at + 4 <= buff.Length
    modifies buff
    ensures next == at + 4 && total' == total + 4
    ensures Wrote(old(buff[..]), buff[..], at, EncInt(a))
  {
    CopyTo(buff, at, EncInt(a));
    next, total' := at + 4, total + 4;
  }

  method InsertStr(buff: array<byte>, at: nat, s: Bytes, total: int) returns (next: nat, total': int)
    requires at + |EncStr(s)| <= buff.Length
    modifies buff
    ensures next == at + |EncStr(s)| && total' == total + |EncStr(s)|
    ensures Wrote(old(buff[..]), buff[..], at, EncStr(s))
  {
    var len := |s| + 1;
    CopyTo(buff, at, EncInt(len));
    ghost var mid := buff[..];
    CopyTo(buff, at + 4, s + [NUL]);
    WroteTwice(old(buff[..]), mid, buff[..], at, EncInt(len), s + [NUL]);
    assert EncInt(len) + (s + [NUL]) == EncStr(s);
    next, total' := at + 4 + len, total + len + 4;
  }

  /** The loop over a whole list: it writes exactly EncStrs and counts exactly the bytes written. */
  method InsertStrs(buff: array<byte>, at: nat, strs: seq<Bytes>, total: int) returns (next: nat, total': int)
    requires at + |EncStrs(strs)| <= buff.Length
    modifies buff
    ensures next == at + |EncStrs(strs)| && total' == total + |EncStrs(strs)|
    ensures Wrote(old(buff[..]), buff[..], at, EncStrs(strs))
  {
    next := at;
    var written := 0;
    assert Wrote(buff[..], buff[..], at, EncStrs(strs[..0]));
    for i := 0 to |strs|
      invariant next == at + |EncStrs(strs[..i])| && written == |EncStrs(strs[..i])|
      invariant Wrote(old(buff[..]), buff[..], at, EncStrs(strs[..i]))
    {
      EncStrsPrefix(strs, i);
      ghost var before := buff[..];
      next, written := InsertStr(buff, next, strs[i], written);
      WroteTwice(old(buff[..]), before, buff[..], at, EncStrs(strs[..i]), EncStr(strs[i]));
    }
    assert strs[..|strs|] == strs;
    total' := total + written;
  }

  lemma EncStrsPrefix(strs: seq<Bytes>, i: nat)
    requires i < |strs|
    ensures EncStrs(strs[..i + 1]) == EncStrs(strs[..i]) + EncStr(strs[i])
    ensures |EncStrs(strs[..i + 1])| <= |EncStrs(strs)|
  {
    assert strs[..i + 1] == strs[..i] + [strs[i]];
    EncStrsAppend(strs[..i], strs[i]);
    EncStrsSplit(strs, i + 1);
  }

  lemma {:induction false} EncStrsSplit(strs: seq<Bytes>, i: nat)
    requires i <= |strs|
    ensures EncStrs(strs) == EncStrs(strs[..i]) + EncStrs(strs[i..])
    decreases |strs| - i
  {
    if i == |strs| {
      assert strs[..i] == strs;
    } else {
      EncStrsSplit(strs, i + 1);
      assert strs[..i + 1] == strs[..i] + [strs[i]];
      EncStrsAppend(strs[..i], strs[i]);
      assert strs[i..][1..] == strs[i + 1..];
    }
  }

  method GetInt(buff: array<byte>, at: nat) returns (a: int, next: nat)
    requires at + 4 <= buff.Length
    ensures a == DecInt(buff[at..]) && next == at + 4
  {
    a := DecInt(buff[at..at + 4]);
    next := at + 4;
  }

  /** Reads one string; std::string's constructor stops at the first NUL of the copied bytes. */
  method GetString(buff: array<byte>, at: nat) returns (s: Bytes, next: nat)
    requires at <= buff.Length && DecStr(buff[at..]).Some?
    ensures at <= next <= buff.Length
    ensures DecStr(buff[at..]) == Some((s, buff[next..]))
  {
    var len := DecInt(buff[at..at + 4]);
    var tmp := buff[at + 4..at + 4 + len];
    assert tmp == buff[at..][4..4 + len];
    next := at + 4 + len;
    assert buff[next..] == buff[at..][4 + len..];
    var z := 0;
    while tmp[z] != NUL
      invariant z < |tmp|
      decreases |tmp| - z
      invariant forall i :: 0 <= i < z ==> tmp[i] != NUL
    {
      z := z + 1;
      if z == |tmp| {
        NoNul(tmp);
        assert false;
      }
    }
    FirstNulUnique(tmp, z);
    s := tmp[..z];
  }

  lemma NoNul(s: Bytes)
    requires NulFree(s)
    ensures FirstNul(s) == |s|
  {
  }
}
