/** The directory as it lies in the control node's database, each entry in encoded form. */
module DirectoryDb {
  import opened Bytes
  import opened Tables
  import opened HandleBuff
  import opened Records
  import opened StoreSpec
  import opened Wire
  import opened Balance
  import opened Clusters
  import opened ClusterLaws

  function EncEntry(e: Entry<Meta>): Entry<Bytes> {
    Entry(e.key, EncMeta(e.value))
  }

  function EncDir(dir: Directory): (t: Table<Bytes>)
    ensures |t| == |dir|
    ensures forall i :: 0 <= i < |dir| ==> t[i] == EncEntry(dir[i])
  {
    seq(|dir|, i requires 0 <= i < |dir| => EncEntry(dir[i]))
  }

  lemma EncDirSeek(dir: Directory, k: Bytes)
    ensures Seek(EncDir(dir), k) == Seek(dir, k) && Has(EncDir(dir), k) == Has(dir, k)
    ensures Floor(EncDir(dir), k) == Floor(dir, k)
    ensures Sorted(dir) ==> Sorted(EncDir(dir))
  {
    SeekUnique(EncDir(dir), k, Seek(dir, k));
    SeekUnique(EncDir(dir), k + [NUL], Seek(dir, k + [NUL]));
  }

  lemma EncDirSplice(dir: Directory, p: nat, q: nat, x: Directory)
    requires p <= q <= |dir|
    ensures EncDir(Splice(dir, p, q, x)) == Splice(EncDir(dir), p, q, EncDir(x))
  {
  }

  lemma EncDirPut(dir: Directory, k: Bytes, m: Meta)
    ensures EncDir(Put(dir, k, m)) == Put(EncDir(dir), k, EncMeta(m))
  {
    hide Less, Splice, Seek;
    EncDirSeek(dir, k);
    var p := Seek(dir, k);
    EncDirOne(k, m);
    EncDirSplice(dir, p, if Has(dir, k) then p + 1 else p, [Entry(k, m)]);
  }

  lemma EncDirDelete(dir: Directory, k: Bytes)
    ensures EncDir(Delete(dir, k)) == Delete(EncDir(dir), k)
  {
    hide Less, Splice, Seek;
    EncDirSeek(dir, k);
    if Has(dir, k) {
      EncDirSplice(dir, Seek(dir, k), Seek(dir, k) + 1, []);
    }
  }

  lemma EncDirOne(k: Bytes, m: Meta)
    ensures EncDir([Entry(k, m)]) == [Entry(k, EncMeta(m))] && EncDir([]) == []
  {
  }

  /** Editing the encoded table is editing the directory. */
  lemma EncDirRewrite(dir: Directory, k: Bytes, m: Meta)
    ensures EncDir(Put(Delete(dir, k), m.min, m)) == Put(Delete(EncDir(dir), k), m.min, EncMeta(m))
  {
    hide Put, Delete, EncDir;
    EncDirDelete(dir, k);
    EncDirPut(Delete(dir, k), m.min, m);
  }

  ghost predicate DirFits(dir: Directory) {
    forall i :: 0 <= i < |dir| ==> dir[i].value.Fits()
  }

  lemma InvDirFits(c: Cluster)
    requires Inv(c) && |c.nodes| < 0x8000_0000
    ensures DirFits(c.dir) && Sorted(c.dir)
  {
    DirectorySorted(c);
    forall i | 0 <= i < |c.dir|
      ensures c.dir[i].value.Fits()
    {
      assert Announces(c.dir[i], i);
    }
  }
}
