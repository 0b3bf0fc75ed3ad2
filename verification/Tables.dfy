/** A RocksDB database as the repository uses it: entries in ascending key order. */
module Tables {
  import opened Bytes

  datatype Option<+T> = None | Some(value: T)

  datatype Entry<+V> = Entry(key: Bytes, value: V)

  type Table<+V> = seq<Entry<V>>

  ghost predicate Sorted<V>(t: Table<V>) {
    forall i, j :: 0 <= i < j < |t| ==> Less(t[i].key, t[j].key)
  }

  ghost predicate AllBelow<V>(t: Table<V>, k: Bytes) {
    forall i :: 0 <= i < |t| ==> Less(t[i].key, k)
  }

  ghost predicate AllAbove<V>(t: Table<V>, k: Bytes) {
    forall i :: 0 <= i < |t| ==> Less(k, t[i].key)
  }

  /** The first p keys are smaller than k and the next one is not. */
  ghost predicate SplitAt<V>(t: Table<V>, p: nat, k: Bytes) {
    p <= |t| && (forall i :: 0 <= i < p ==> Less(t[i].key, k)) && (p < |t| ==> !Less(t[p].key, k))
  }

  /** Where Seek(k) lands: the first key at or past k, |t| when there is none. */
  function Seek<V>(t: Table<V>, k: Bytes): (p: nat)
    ensures SplitAt(t, p, k)
  {
    if t == [] || !Less(t[0].key, k) then 0 else 1 + Seek(t[1..], k)
  }

  predicate Has<V>(t: Table<V>, k: Bytes) {
    var p := Seek(t, k);
    p < |t| && t[p].key == k
  }

  function Find<V>(t: Table<V>, k: Bytes): Option<V> {
    if Has(t, k) then Some(t[Seek(t, k)].value) else None
  }

  function Splice<V>(t: Table<V>, p: nat, q: nat, x: Table<V>): Table<V>
    requires p <= q <= |t|
  {
    t[..p] + x + t[q..]
  }

  function Put<V>(t: Table<V>, k: Bytes, v: V): (r: Table<V>)
    ensures Sorted(t) ==> Sorted(r)
  {
    var p := Seek(t, k);
    var r := Splice(t, p, if Has(t, k) then p + 1 else p, [Entry(k, v)]);
    assert Sorted(t) ==> Sorted(r) by {
      if Sorted(t) {
        SeekSplits(t, k);
      }
    }
    r
  }

  function Delete<V>(t: Table<V>, k: Bytes): (r: Table<V>)
    ensures Sorted(t) ==> Sorted(r)
  {
    if Has(t, k) then Splice(t, Seek(t, k), Seek(t, k) + 1, []) else t
  }

  /** In a sorted table everything past the seek position is larger than the target. */
  lemma SeekSplits<V>(t: Table<V>, k: Bytes)
    requires Sorted(t)
    ensures forall i :: (if Has(t, k) then Seek(t, k) + 1 else Seek(t, k)) <= i < |t| ==> Less(k, t[i].key)
  {
    var p := Seek(t, k);
    if p < |t| {
      Trichotomy(k, t[p].key);
      forall i | p < i < |t|
        ensures Less(k, t[i].key)
      {
        LeqLess(k, t[p].key, t[i].key);
      }
    }
  }

  /** The seek position is the only split of the table at k. */
  lemma SeekUnique<V>(t: Table<V>, k: Bytes, p: nat)
    requires SplitAt(t, p, k)
    ensures Seek(t, k) == p
  {
    assert SplitAt(t, Seek(t, k), k);
  }

  lemma SeekHit<V>(t: Table<V>, p: nat)
    requires Sorted(t) && p < |t|
    ensures Seek(t, t[p].key) == p && Has(t, t[p].key)
  {
    LessIrreflexive(t[p].key);
    SeekUnique(t, t[p].key, p);
  }

  /** Looking a key up finds exactly the entry that carries it. */
  lemma FindExact<V>(t: Table<V>, k: Bytes, v: V)
    requires Sorted(t)
    ensures Find(t, k) == Some(v) <==> Entry(k, v) in t
  {
    if Entry(k, v) in t {
      var p :| 0 <= p < |t| && t[p] == Entry(k, v);
      SeekHit(t, p);
    }
  }

  /** A part of a table that k splits off from its surroundings answers for the whole. */
  lemma SeekMiddle<V>(a: Table<V>, t: Table<V>, b: Table<V>, k: Bytes)
    requires AllBelow(a, k) && AllAbove(b, k)
    ensures Seek(a + t + b, k) == |a| + Seek(t, k)
    ensures Has(a + t + b, k) == Has(t, k)
  {
    if b != [] {
      LessAsymmetric(k, b[0].key);
    }
    SeekUnique(a + t + b, k, |a| + Seek(t, k));
  }

  lemma FindMiddle<V>(a: Table<V>, t: Table<V>, b: Table<V>, k: Bytes)
    requires AllBelow(a, k) && AllAbove(b, k)
    ensures Find(a + t + b, k) == Find(t, k)
  {
    SeekMiddle(a, t, b, k);
  }

  lemma SpliceMiddle<V>(a: Table<V>, t: Table<V>, b: Table<V>, p: nat, q: nat, x: Table<V>)
    requires p <= q <= |t|
    ensures Splice(a + t + b, |a| + p, |a| + q, x) == a + Splice(t, p, q, x) + b
  {
    var u := a + t + b;
    assert u[..|a| + p] == a + t[..p];
    assert u[|a| + q..] == t[q..] + b;
  }

  lemma PutMiddle<V>(a: Table<V>, t: Table<V>, b: Table<V>, k: Bytes, v: V)
    requires AllBelow(a, k) && AllAbove(b, k)
    ensures Put(a + t + b, k, v) == a + Put(t, k, v) + b
  {
    hide Less, Seek;
    SeekMiddle(a, t, b, k);
    var p := Seek(t, k);
    SpliceMiddle(a, t, b, p, if Has(t, k) then p + 1 else p, [Entry(k, v)]);
  }

  lemma DeleteMiddle<V>(a: Table<V>, t: Table<V>, b: Table<V>, k: Bytes)
    requires AllBelow(a, k) && AllAbove(b, k)
    ensures Delete(a + t + b, k) == a + Delete(t, k) + b
  {
    hide Less, Seek;
    SeekMiddle(a, t, b, k);
    if Has(t, k) {
      SpliceMiddle(a, t, b, Seek(t, k), Seek(t, k) + 1, []);
    }
  }

  /** Deleting entry p and writing (k, v), where k fits between p's neighbours, replaces it in place. */
  lemma ReplaceInPlace<V>(t: Table<V>, p: nat, k: Bytes, v: V)
    requires Sorted(t) && p < |t|
    requires AllBelow(t[..p], k) && AllAbove(t[p + 1..], k)
    ensures Put(Delete(t, t[p].key), k, v) == t[p := Entry(k, v)]
    ensures Sorted(t[p := Entry(k, v)])
  {
    var d := t[..p] + t[p + 1..];
    SeekHit(t, p);
    if p < |d| {
      assert d[p] == t[p + 1..][0];
      LessAsymmetric(k, d[p].key);
    }
    SeekUnique(d, k, p);
    SpliceOver(t, p, Entry(k, v));
    AtSorted(t, p, Entry(k, v));
  }

  lemma SpliceOver<V>(t: Table<V>, p: nat, e: Entry<V>)
    requires p < |t|
    ensures Splice(t, p, p + 1, []) == t[..p] + t[p + 1..]
    ensures Splice(t[..p] + t[p + 1..], p, p, [e]) == t[p := e]
  {
    var d := t[..p] + t[p + 1..];
    assert d[..p] == t[..p] && d[p..] == t[p + 1..];
  }

  lemma AtSorted<V>(t: Table<V>, p: nat, e: Entry<V>)
    requires Sorted(t) && p < |t|
    requires AllBelow(t[..p], e.key) && AllAbove(t[p + 1..], e.key)
    ensures Sorted(t[p := e])
  {
    hide Less;
    var r := t[p := e];
    forall i, j | 0 <= i < j < |r|
      ensures Less(r[i].key, r[j].key)
    {
      if j == p {
        assert t[..p][i] == t[i];
      } else if i == p {
        assert t[p + 1..][j - p - 1] == t[j];
      }
    }
  }

  lemma DeleteEnds<V>(t: Table<V>)
    requires Sorted(t) && |t| > 0
    ensures Delete(t, t[|t| - 1].key) == t[..|t| - 1]
    ensures Delete(t, t[0].key) == t[1..]
  {
    SeekHit(t, |t| - 1);
    SeekHit(t, 0);
  }

  lemma PutFront<V>(t: Table<V>, k: Bytes, v: V)
    requires AllAbove(t, k)
    ensures Put(t, k, v) == [Entry(k, v)] + t
  {
    if t != [] {
      LessAsymmetric(k, t[0].key);
    }
    SeekUnique(t, k, 0);
    assert t[..0] + [Entry(k, v)] + t[0..] == [Entry(k, v)] + t;
  }

  lemma PutBack<V>(t: Table<V>, k: Bytes, v: V)
    requires AllBelow(t, k)
    ensures Put(t, k, v) == t + [Entry(k, v)]
  {
    SeekUnique(t, k, |t|);
    assert t[..|t|] + [Entry(k, v)] + t[|t|..] == t + [Entry(k, v)];
  }

  /** A table read as a finite map. */
  ghost function ToMap<V>(t: Table<V>): map<Bytes, V> {
    map k | k in Keys(t) && Has(t, k) :: t[Seek(t, k)].value
  }

  ghost function Keys<V>(t: Table<V>): set<Bytes> {
    set i | 0 <= i < |t| :: t[i].key
  }

  lemma ToMapFind<V>(t: Table<V>, k: Bytes)
    requires Sorted(t)
    ensures k in ToMap(t) <==> Find(t, k).Some?
    ensures k in ToMap(t) ==> Find(t, k) == Some(ToMap(t)[k])
    ensures k in Keys(t) <==> Has(t, k)
  {
    if k in Keys(t) {
      var i :| 0 <= i < |t| && t[i].key == k;
      SeekHit(t, i);
    }
  }

  lemma SpliceMembers<V>(t: Table<V>, p: nat, q: nat, x: Table<V>, e: Entry<V>)
    requires p <= q <= |t|
    ensures e in Splice(t, p, q, x) <==> e in t[..p] || e in x || e in t[q..]
  {
  }

  /** The other entries of a table are those before and after the seek position. */
  lemma Others<V>(t: Table<V>, k: Bytes, e: Entry<V>)
    requires Sorted(t)
    ensures var p := Seek(t, k);
            e in t && e.key != k <==> e in t[..p] || e in t[if Has(t, k) then p + 1 else p..]
  {
    hide Less, Seek, Sorted;
    var p := Seek(t, k);
    var q := if Has(t, k) then p + 1 else p;
    SeekSplits(t, k);
    LessIrreflexive(k);
    InParts(t, p, q, e);
    assert forall i :: 0 <= i < p ==> Less(t[..p][i].key, k);
    assert forall i :: 0 <= i < |t| - q ==> Less(k, t[q..][i].key);
  }

  lemma InParts<T>(t: seq<T>, p: nat, q: nat, e: T)
    requires p <= q <= |t|
    ensures e in t <==> e in t[..p] || e in t[p..q] || e in t[q..]
  {
    assert t == t[..p] + t[p..q] + t[q..];
  }

  lemma PutMembers<V>(t: Table<V>, k: Bytes, v: V, e: Entry<V>)
    requires Sorted(t)
    ensures e in Put(t, k, v) <==> e == Entry(k, v) || (e in t && e.key != k)
  {
    hide Less, Splice;
    Others(t, k, e);
    var p := Seek(t, k);
    SpliceMembers(t, p, if Has(t, k) then p + 1 else p, [Entry(k, v)], e);
  }

  lemma DeleteMembers<V>(t: Table<V>, k: Bytes, e: Entry<V>)
    requires Sorted(t)
    ensures e in Delete(t, k) <==> e in t && e.key != k
  {
    hide Less, Splice, Sorted;
    Others(t, k, e);
    var p := Seek(t, k);
    if Has(t, k) {
      SpliceMembers(t, p, p + 1, [], e);
    } else {
      assert t == t[..p] + t[p..];
    }
  }

  lemma FindPut<V>(t: Table<V>, k: Bytes, v: V, x: Bytes)
    requires Sorted(t)
    ensures Find(Put(t, k, v), x) == if x == k then Some(v) else Find(t, x)
  {
    hide Less, Find, Put;
    var r := Put(t, k, v);
    if x == k {
      PutMembers(t, k, v, Entry(k, v));
      FindExact(r, k, v);
    } else {
      if Find(t, x).Some? {
        var e := Entry(x, Find(t, x).value);
        FindExact(t, x, e.value);
        PutMembers(t, k, v, e);
        FindExact(r, x, e.value);
      }
      if Find(r, x).Some? {
        var e := Entry(x, Find(r, x).value);
        FindExact(r, x, e.value);
        PutMembers(t, k, v, e);
        FindExact(t, x, e.value);
      }
    }
  }

  lemma FindDelete<V>(t: Table<V>, k: Bytes, x: Bytes)
    requires Sorted(t)
    ensures Find(Delete(t, k), x) == if x == k then None else Find(t, x)
  {
    hide Less, Find, Delete;
    var r := Delete(t, k);
    if Find(t, x).Some? && x != k {
      var e := Entry(x, Find(t, x).value);
      FindExact(t, x, e.value);
      DeleteMembers(t, k, e);
      FindExact(r, x, e.value);
    }
    if Find(r, x).Some? {
      var e := Entry(x, Find(r, x).value);
      FindExact(r, x, e.value);
      DeleteMembers(t, k, e);
      FindExact(t, x, e.value);
    }
  }

  /** On a sorted table Put is the update of a finite map. */
  lemma PutIsUpdate<V>(t: Table<V>, k: Bytes, v: V)
    requires Sorted(t)
    ensures ToMap(Put(t, k, v)) == ToMap(t)[k := v]
  {
    hide Less, Find, Put, ToMap;
    var m, r := ToMap(t)[k := v], ToMap(Put(t, k, v));
    forall x
      ensures x in r <==> x in m
      ensures x in m ==> r[x] == m[x]
    {
      FindPut(t, k, v, x);
      ToMapFind(t, x);
      ToMapFind(Put(t, k, v), x);
    }
  }

  /** On a sorted table Delete is the removal of a key from a finite map. */
  lemma DeleteIsRemoval<V>(t: Table<V>, k: Bytes)
    requires Sorted(t)
    ensures ToMap(Delete(t, k)) == ToMap(t) - {k}
  {
    hide Less, Find, Delete, ToMap;
    var m, r := ToMap(t) - {k}, ToMap(Delete(t, k));
    forall x
      ensures x in r <==> x in m
      ensures x in m ==> r[x] == m[x]
    {
      FindDelete(t, k, x);
      ToMapFind(t, x);
      ToMapFind(Delete(t, k), x);
    }
  }

  /** Bytes a key/value table accounts for: each string with its NUL. */
  function Weight(t: Table<Bytes>): nat {
    if t == [] then 0 else EntryWeight(t[0]) + Weight(t[1..])
  }

  function EntryWeight(e: Entry<Bytes>): nat {
    |e.key| + |e.value| + 2
  }

  lemma {:induction false} WeightConcat(a: Table<Bytes>, b: Table<Bytes>)
    ensures Weight(a + b) == Weight(a) + Weight(b)
  {
    if a == [] {
      assert a + b == b;
    } else {
      assert (a + b)[1..] == a[1..] + b;
      WeightConcat(a[1..], b);
    }
  }

  lemma WeightOne(e: Entry<Bytes>)
    ensures Weight([e]) == EntryWeight(e)
  {
    assert [e][1..] == [];
  }

  lemma WeightSplice(t: Table<Bytes>, p: nat, q: nat, x: Table<Bytes>)
    requires p <= q <= |t|
    ensures Weight(Splice(t, p, q, x)) == Weight(t) - Weight(t[p..q]) + Weight(x)
  {
    assert t == t[..p] + t[p..q] + t[q..];
    WeightConcat(t[..p] + t[p..q], t[q..]);
    WeightConcat(t[..p], t[p..q]);
    WeightConcat(t[..p] + x, t[q..]);
    WeightConcat(t[..p], x);
  }

  /** What overwriting or inserting does to the weight, and what deleting does. */
  lemma WeightPutDelete(t: Table<Bytes>, k: Bytes, v: Bytes)
    ensures Weight(Put(t, k, v)) == Weight(Delete(t, k)) + EntryWeight(Entry(k, v))
    ensures Weight(Delete(t, k)) == Weight(t) - (if Has(t, k) then EntryWeight(Entry(k, Find(t, k).value)) else 0)
  {
    var p := Seek(t, k);
    WeightOne(Entry(k, v));
    if Has(t, k) {
      WeightSplice(t, p, p + 1, [Entry(k, v)]);
      WeightSplice(t, p, p + 1, []);
      assert t[p..p + 1] == [t[p]];
      WeightOne(t[p]);
    } else {
      WeightSplice(t, p, p, [Entry(k, v)]);
    }
  }

  /** The entry a key is routed to: the last one at or below it, else the first. */
  function Floor<V>(t: Table<V>, k: Bytes): (f: nat)
    ensures t != [] ==> f < |t|
  {
    var p := Seek(t, k + [NUL]);
    if p == 0 then 0 else p - 1
  }

  lemma FloorSplits<V>(t: Table<V>, k: Bytes)
    requires Sorted(t) && t != []
    ensures forall i :: 0 <= i < Floor(t, k) ==> Leq(t[i].key, k)
    ensures forall i :: Floor(t, k) < i < |t| ==> Less(k, t[i].key)
    ensures if Leq(t[0].key, k) then Leq(t[Floor(t, k)].key, k)
            else Floor(t, k) == 0 && Less(k, t[0].key)
  {
    var p := Seek(t, k + [NUL]);
    forall i | 0 <= i < p
      ensures Leq(t[i].key, k)
    {
      NulSuccessor(t[i].key, k);
    }
    if p < |t| {
      NulSuccessor(t[p].key, k);
      Trichotomy(k, t[p].key);
      forall i | p <= i < |t|
        ensures Less(k, t[i].key)
      {
        if p < i {
          LessTransitive(k, t[p].key, t[i].key);
        }
      }
      if p > 0 {
        Trichotomy(k, t[0].key);
      }
    }
  }

  /** The floor is determined by its neighbours. */
  lemma FloorUnique<V>(t: Table<V>, k: Bytes, f: nat)
    requires Sorted(t) && f < |t| && Leq(t[f].key, k)
    requires f + 1 < |t| ==> Less(k, t[f + 1].key)
    ensures Floor(t, k) == f
  {
    FloorSplits(t, k);
    var g := Floor(t, k);
    if f < g {
      Trichotomy(t[f + 1].key, k);
    } else if g < f {
      Trichotomy(t[f].key, k);
    }
  }
}
