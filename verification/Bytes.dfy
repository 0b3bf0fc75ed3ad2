/** Byte strings and the order RocksDB keeps its keys in: unsigned bytes, lexicographic, a proper
    prefix first. std::string's own comparison, which std::min and std::max use, is the same order. */
module Bytes {

  newtype byte = b: int | 0 <= b < 256

  type Bytes = seq<byte>

  const NUL: byte := 0

  predicate Less(a: Bytes, b: Bytes) {
    b != [] && (a == [] || a[0] < b[0] || (a[0] == b[0] && Less(a[1..], b[1..])))
  }

  predicate Leq(a: Bytes, b: Bytes) {
    a == b || Less(a, b)
  }

  /** std::min */
  function Min(a: Bytes, b: Bytes): Bytes {
    if Less(b, a) then b else a
  }

  /** std::max */
  function Max(a: Bytes, b: Bytes): Bytes {
    if Less(a, b) then b else a
  }

  predicate NulFree(s: Bytes) {
    forall i :: 0 <= i < |s| ==> s[i] != NUL
  }

  lemma {:induction false} LessIrreflexive(a: Bytes)
    ensures !Less(a, a)
  {
    if a != [] {
      LessIrreflexive(a[1..]);
    }
  }

  lemma {:induction false} LessTransitive(a: Bytes, b: Bytes, c: Bytes)
    requires Less(a, b) && Less(b, c)
    ensures Less(a, c)
  {
    if a != [] && a[0] == b[0] && b[0] == c[0] {
      LessTransitive(a[1..], b[1..], c[1..]);
    }
  }

  lemma {:induction false} LessTotal(a: Bytes, b: Bytes)
    ensures Less(a, b) || a == b || Less(b, a)
  {
    if a != [] && b != [] && a[0] == b[0] {
      LessTotal(a[1..], b[1..]);
      assert a == [a[0]] + a[1..] && b == [b[0]] + b[1..];
    }
  }

  /** b goes on where a ends, or has the larger byte, at position n; before it they agree. */
  predicate DifferAt(a: Bytes, b: Bytes, n: nat) {
    n <= |a| && n < |b| && a[..n] == b[..n] && (n == |a| || a[n] as int < b[n] as int)
  }

  /** The order is decided at the first position where two strings differ, by the unsigned bytes there. */
  lemma {:induction false} LessIsFirstDifference(a: Bytes, b: Bytes)
    ensures Less(a, b) <==> exists n: nat :: DifferAt(a, b, n)
  {
    if b != [] && (a == [] || a[0] < b[0]) {
      assert DifferAt(a, b, 0);
    } else if a != [] && b != [] && a[0] == b[0] {
      LessIsFirstDifference(a[1..], b[1..]);
      if n: nat :| DifferAt(a[1..], b[1..], n) {
        assert a[..n + 1] == [a[0]] + a[1..][..n] && b[..n + 1] == [b[0]] + b[1..][..n];
        assert DifferAt(a, b, n + 1);
      }
      if n: nat :| DifferAt(a, b, n) {
        assert a[1..][..n - 1] == a[..n][1..] && b[1..][..n - 1] == b[..n][1..];
        assert DifferAt(a[1..], b[1..], n - 1);
      }
    } else if n: nat :| DifferAt(a, b, n) {
      DifferHead(a, b, n);
    }
  }

  lemma DifferHead(a: Bytes, b: Bytes, n: nat)
    requires DifferAt(a, b, n)
    ensures b != [] && (a == [] || a[0] <= b[0])
  {
    assert a != [] && n > 0 ==> a[0] == a[..n][0] && b[0] == b[..n][0];
  }

  lemma LessAsymmetric(a: Bytes, b: Bytes)
    requires Less(a, b)
    ensures !Less(b, a) && a != b
  {
    LessIrreflexive(a);
    if Less(b, a) {
      LessTransitive(a, b, a);
    }
  }

  /** Chains a non-strict step and a strict one, in either order. */
  lemma LeqLess(a: Bytes, b: Bytes, c: Bytes)
    requires (Leq(a, b) && Less(b, c)) || (Less(a, b) && Leq(b, c))
    ensures Less(a, c)
  {
    if a != b && b != c {
      LessTransitive(a, b, c);
    }
  }

  lemma LeqTransitive(a: Bytes, b: Bytes, c: Bytes)
    requires Leq(a, b) && Leq(b, c)
    ensures Leq(a, c)
  {
    if a != b && b != c {
      LessTransitive(a, b, c);
    }
  }

  /** The order is strict and total. */
  lemma Trichotomy(a: Bytes, b: Bytes)
    ensures Less(a, b) <==> !Leq(b, a)
    ensures Leq(a, b) <==> !Less(b, a)
  {
    LessTotal(a, b);
    LessIrreflexive(a);
    if Less(a, b) {
      LessAsymmetric(a, b);
    }
    if Less(b, a) {
      LessAsymmetric(b, a);
    }
  }

  /** Appending a NUL byte gives the immediate successor of a string: nothing lies in between. */
  lemma {:induction false} NulSuccessor(x: Bytes, k: Bytes)
    ensures Less(x, k + [NUL]) <==> Leq(x, k)
  {
    if x != [] && k != [] {
      assert (k + [NUL])[0] == k[0] && (k + [NUL])[1..] == k[1..] + [NUL];
      NulSuccessor(x[1..], k[1..]);
      assert x == [x[0]] + x[1..] && k == [k[0]] + k[1..];
    }
  }
}
