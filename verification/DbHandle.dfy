/** The repository's wrapper around one RocksDB database. */
module DbHandles {
  import opened Bytes
  import opened Tables

  /** A RocksDB iterator: a position in the table as it was when the iterator was made. */
  datatype Iterator<V> = Iterator(snapshot: Table<V>, pos: int) {

    predicate Valid() {
      0 <= pos < |snapshot|
    }

    function SeekToFirst(): Iterator<V> {
      this.(pos := 0)
    }

    function SeekToLast(): Iterator<V> {
      this.(pos := |snapshot| - 1)
    }

    function Seek(target: Bytes): Iterator<V> {
      this.(pos := Tables.Seek(snapshot, target))
    }

    function Next(): Iterator<V>
      requires Valid()
    {
      this.(pos := pos + 1)
    }

    function Prev(): Iterator<V>
      requires Valid()
    {
      this.(pos := pos - 1)
    }

    function Key(): Bytes
      requires Valid()
    {
      snapshot[pos].key
    }

    function Value(): V
      requires Valid()
    {
      snapshot[pos].value
    }
  }

  class DbHandle {
    var table: Table<Bytes>

    ghost predicate Valid()
      reads this
    {
      Sorted(table)
    }

    constructor ()
      ensures table == [] && Valid()
    {
      table := [];
    }

    method Put(key: Bytes, value: Bytes)
      requires Valid()
      modifies this
      ensures Valid() && table == Tables.Put(old(table), key, value)
    {
      table := Tables.Put(table, key, value);
    }

    method Delete(key: Bytes)
      requires Valid()
      modifies this
      ensures Valid() && table == Tables.Delete(old(table), key)
    {
      table := Tables.Delete(table, key);
    }

    /** An absent key reads as the empty string. */
    method Get(key: Bytes) returns (value: Bytes)
      requires Valid()
      ensures value == (match Find(table, key) case Some(v) => v case None => [])
    {
      value := match Find(table, key) case Some(v) => v case None => [];
    }

    method NewIterator() returns (it: Iterator<Bytes>)
      ensures it == Iterator(table, -1)
    {
      it := Iterator(table, -1);
    }

    method GetNum() returns (ret: int)
      ensures ret == |table|
    {
      ret := 0;
      var it := NewIterator();
      it := it.SeekToFirst();
      while it.Valid()
        invariant it == Iterator(table, ret) && 0 <= ret <= |table|
        decreases |table| - ret
      {
        ret := ret + 1;
        it := it.Next();
      }
    }

    /** The full scan: the weight of the table. */
    method GetSize() returns (ret: int)
      ensures ret == Weight(table)
    {
      ret := 0;
      var it := NewIterator();
      it := it.SeekToFirst();
      while it.Valid()
        invariant it == Iterator(table, it.pos) && 0 <= it.pos <= |table|
        invariant ret + Weight(table[it.pos..]) == Weight(table)
        decreases |table| - it.pos
      {
        ret := ret + |it.Value()| + 1;
        ret := ret + |it.Key()| + 1;
        assert table[it.pos..][1..] == table[it.pos + 1..];
        it := it.Next();
      }
    }

    /** Lands on the largest key at or below the target, or on the smallest key of all when there is
        none; the result tells the two apart. The equality branch is never the one taken. */
    static method GetSmallerOrEqual<V>(key: Bytes, it0: Iterator<V>) returns (it: Iterator<V>, found: bool)
      requires Sorted(it0.snapshot)
      ensures it.snapshot == it0.snapshot && (it.Valid() <==> it.snapshot != [])
      ensures it.Valid() ==> it.pos == Floor(it.snapshot, key)
      ensures it.Valid() ==> found == Leq(it.Key(), key)
      ensures forall i :: 0 <= i < |it.snapshot| && Leq(it.snapshot[i].key, key) ==> found && i <= it.pos
    {
      it := it0.Seek(key + [NUL]);
      if it.snapshot != [] {
        FloorSplits(it.snapshot, key);
      }
      forall i | Floor(it.snapshot, key) < i < |it.snapshot|
        ensures !Leq(it.snapshot[i].key, key)
      {
        Trichotomy(key, it.snapshot[i].key);
      }
      if !it.Valid() {
        it, found := it.SeekToLast(), true;
        if it.Valid() {
          NulSuccessor(it.Key(), key);
        }
      } else {
        NulSuccessor(it.Key(), key);
        if it.Key() == key {
          assert false;
        }
        it := it.Prev();
        if !it.Valid() {
          it, found := it.SeekToFirst(), false;
          Trichotomy(key, it.Key());
        } else {
          found := true;
          NulSuccessor(it.Key(), key);
        }
      }
    }

    method StoreLessOrEqualOne() returns (few: bool)
      ensures few <==> |table| <= 1
    {
      var ret := 0;
      var it := NewIterator();
      it := it.SeekToFirst();
      while it.Valid()
        invariant it == Iterator(table, ret) && 0 <= ret <= |table| && ret < 2
        decreases |table| - ret
      {
        ret := ret + 1;
        it := it.Next();
        if ret >= 2 {
          return false;
        }
      }
      return true;
    }
  }
}
