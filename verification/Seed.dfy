/** The directory a fresh control node starts with, and how many nodes it is right for. */
module Seed {
  import opened Bytes
  import opened Tables
  import opened HandleBuff
  import opened Records
  import opened StoreSpec
  import opened Wire
  import opened Balance
  import opened BalanceLaws
  import opened Clusters
  import opened ClusterLaws
  import opened Refinement

  /** std::to_string */
  function ToString(n: nat): Bytes {
    if n < 10 then [(48 + n) as byte] else ToString(n / 10) + [(48 + n % 10) as byte]
  }

  /** Digits only, and no zero in front of another digit. */
  predicate IsNumeral(s: Bytes) {
    s != [] && (forall i :: 0 <= i < |s| ==> 48 <= s[i] <= 57) && (|s| > 1 ==> s[0] != 48)
  }

  /** The number that decimal digits stand for. */
  function Numeral(s: Bytes): int {
    if s == [] then 0 else 10 * Numeral(s[..|s| - 1]) + (s[|s| - 1] as int - 48)
  }

  lemma {:induction false} NumeralOf(n: nat)
    ensures IsNumeral(ToString(n)) && Numeral(ToString(n)) == n && (ToString(n)[0] == 48 <==> n == 0)
  {
    var d := [(48 + n % 10) as byte];
    if n < 10 {
      assert d[..0] == [];
    } else {
      NumeralOf(n / 10);
      assert (ToString(n / 10) + d)[..|ToString(n / 10)|] == ToString(n / 10);
    }
  }

  lemma {:induction false} NumeralValue(s: Bytes)
    requires IsNumeral(s)
    ensures Numeral(s) >= 0 && ToString(Numeral(s)) == s && (s[0] != 48 ==> Numeral(s) > 0)
  {
    var k := |s| - 1;
    assert s == s[..k] + [s[k]];
    if k > 0 {
      NumeralValue(s[..k]);
    } else {
      assert s[..0] == [];
    }
  }

  /** to_string gives the one decimal numeral of its argument. */
  lemma ToStringIsNumeral(n: nat, s: Bytes)
    ensures s == ToString(n) <==> IsNumeral(s) && Numeral(s) == n
  {
    NumeralOf(n);
    if IsNumeral(s) {
      NumeralValue(s);
    }
  }

  function PowerOfTen(k: nat): nat {
    if k == 0 then 1 else 10 * PowerOfTen(k - 1)
  }

  lemma {:induction false} NumeralLength(m: nat, k: nat)
    requires k >= 1 && m < PowerOfTen(k)
    ensures |ToString(m)| <= k
    decreases k
  {
    if m >= 10 {
      assert PowerOfTen(k) == 10 * PowerOfTen(k - 1);
      NumeralLength(m / 10, k - 1);
    }
  }

  lemma SeedEntryShort(i: nat)
    requires i < 0x8000_0000
    ensures |SeedEntry(i).key| <= 10
  {
    assert PowerOfTen(2) == 100 && PowerOfTen(4) == 10000 && PowerOfTen(6) == 1000000;
    assert PowerOfTen(8) == 100000000 && PowerOfTen(10) == 10000000000;
    NumeralLength(i + 1, 10);
  }

  function SeedEntry(i: nat): Entry<Meta> {
    Entry(ToString(i + 1), Meta(ToString(i + 1), ToString(i + 1), i))
  }

  /** The constructor's loop: node i is stored under the decimal numeral of i + 1. */
  function SeedDirectory(n: nat): Directory {
    if n == 0 then [] else Put(SeedDirectory(n - 1), SeedEntry(n - 1).key, SeedEntry(n - 1).value)
  }

  lemma {:induction false} SeedSorted(n: nat)
    ensures Sorted(SeedDirectory(n))
  {
    hide ToString;
    if n > 0 {
      SeedSorted(n - 1);
    }
  }

  lemma FindNothing(k: Bytes)
    ensures Find<Meta>([], k) == None
  {
  }

  /** However many nodes there are, the seeded table has one entry for each: node i's, under the numeral of
      i + 1, with the range of just that key; and no others. */
  lemma {:induction false} SeedComplete(n: nat, k: Bytes)
    ensures var m := Numeral(k) - 1;
            Find(SeedDirectory(n), k) == if IsNumeral(k) && 0 <= m < n then Some(Meta(k, k, m)) else None
  {
    hide ToString, IsNumeral, Numeral, Put, Find, Sorted, Less;
    if n == 0 {
      FindNothing(k);
    } else {
      SeedSorted(n - 1);
      SeedComplete(n - 1, k);
      ToStringIsNumeral(n, k);
      FindPut(SeedDirectory(n - 1), SeedEntry(n - 1).key, SeedEntry(n - 1).value, k);
    }
  }

  function Start(n: nat): Cluster {
    Cluster(SeedDirectory(n), seq(n, _ => []))
  }

  // ---------- up to nine nodes

  lemma OneDigitOrder(a: byte, b: byte)
    ensures Less([a], [b]) <==> a < b
  {
    assert [a][1..] == [] && [b][1..] == [];
  }

  lemma {:induction false} SeedOneDigit(n: nat)
    requires n <= 9
    ensures |SeedDirectory(n)| == n
    ensures forall i :: 0 <= i < n ==> SeedDirectory(n)[i] == SeedEntry(i)
  {
    if n > 0 {
      SeedOneDigit(n - 1);
      var d := SeedDirectory(n - 1);
      forall i | 0 <= i < |d|
        ensures Less(d[i].key, ToString(n))
      {
        OneDigitOrder((49 + i) as byte, (48 + n) as byte);
      }
      PutBack(d, ToString(n), SeedEntry(n - 1).value);
    }
  }

  lemma OneDigitEntry(i: nat)
    requires i < 9
    ensures SeedEntry(i).key == [(49 + i) as byte]
    ensures Announces(SeedEntry(i), i)
  {
  }

  lemma StartInv(n: nat)
    requires 1 <= n <= 9
    ensures Inv(Start(n))
  {
    hide Less, SeedDirectory, SeedEntry, ToString, Announces;
    SeedOneDigit(n);
    var d := SeedDirectory(n);
    forall i | 0 <= i < n
      ensures Announces(d[i], i) && d[i].value.min == d[i].value.max == [(49 + i) as byte]
    {
      OneDigitEntry(i);
      OneDigitRange(i);
    }
    forall i, j | 0 <= i < j < n
      ensures Less(d[i].value.max, d[j].value.min)
    {
      OneDigitOrder((49 + i) as byte, (49 + j) as byte);
    }
  }

  lemma OneDigitRange(i: nat)
    requires i < 9
    ensures SeedEntry(i).value.min == SeedEntry(i).value.max == [(49 + i) as byte]
  {
  }

  // ---------- ten nodes and more

  /** A numeral of two digits or more starts with a digit that is not 0, and only ten reads "10". */
  lemma {:induction false} NumeralShape(m: nat)
    requires m >= 10
    ensures var s := ToString(m);
            |s| >= 2 && 49 <= s[0] <= 57 && 48 <= s[1] <= 57 && (|s| == 2 && s[0] == 49 && s[1] == 48 ==> m == 10)
  {
    if m < 100 {
      assert ToString(m / 10) == [(48 + m / 10) as byte];
    } else {
      NumeralShape(m / 10);
    }
  }

  const ZERO: Bytes := [48]
  const ONE: Bytes := [49]
  const TEN: Bytes := [49, 48]

  lemma TenIsNext(m: nat)
    requires m >= 11
    ensures Less(TEN, ToString(m))
  {
    NumeralShape(m);
    var s := ToString(m);
    assert TEN[1..] == [48] && TEN[1..][1..] == [];
    assert s[1..][0] == s[1] && |s[1..][1..]| == |s| - 2;
    assert Less(TEN[1..], s[1..]) || s[0] > 49;
  }

  lemma SmallOrder()
    ensures Less(ZERO, ONE) && Less(ONE, TEN) && Less(ZERO, TEN) && Less(TEN, [50])
  {
    OneDigitOrder(48, 49);
    assert ONE[1..] == [] && TEN[1..] == [48];
  }

  /** Putting a key past the second entry leaves the first two alone. */
  lemma PutPastTwo<V>(d: Table<V>, k: Bytes, v: V)
    requires Sorted(d) && |d| >= 2 && Less(d[1].key, k)
    ensures var r := Put(d, k, v); Sorted(r) && |r| >= 2 && r[0] == d[0] && r[1] == d[1]
  {
    hide Less;
    LessTransitive(d[0].key, d[1].key, k);
    LessIrreflexive(k);
    assert Seek(d, k) >= 2;
  }

  lemma InsertSecond<V>(d: Table<V>, k: Bytes, v: V)
    requires Sorted(d) && |d| >= 2 && Less(d[0].key, k) && Less(k, d[1].key)
    ensures var r := Put(d, k, v); Sorted(r) && |r| >= 2 && r[0] == d[0] && r[1] == Entry(k, v)
  {
    hide Less;
    LessAsymmetric(k, d[1].key);
    SeekUnique(d, k, 1);
  }

  lemma SeedStep(n: nat)
    requires n > 0
    ensures SeedDirectory(n) == Put(SeedDirectory(n - 1), SeedEntry(n - 1).key, SeedEntry(n - 1).value)
  {
  }

  lemma TenthEntry()
    ensures SeedEntry(0) == Entry(ONE, Meta(ONE, ONE, 0))
    ensures SeedEntry(1).key == [50]
    ensures SeedEntry(9) == Entry(TEN, Meta(TEN, TEN, 9))
  {
    assert ToString(10) == ToString(1) + [48] == TEN;
  }

  /** The tenth node's key goes between those of the first and the second node. */
  lemma SeedTenth()
    ensures var d := SeedDirectory(10);
            Sorted(d) && |d| >= 2 && d[0] == Entry(ONE, Meta(ONE, ONE, 0)) && d[1] == Entry(TEN, Meta(TEN, TEN, 9))
  {
    hide Less, ToString, SeedEntry, Put;
    SeedOneDigit(9);
    SortedNine();
    SmallOrder();
    TenthEntry();
    InsertSecond(SeedDirectory(9), SeedEntry(9).key, SeedEntry(9).value);
    SeedStep(10);
  }

  /** From ten nodes on, the second entry of the table belongs to the tenth node. */
  lemma {:induction false} SeedTwoDigits(n: nat)
    requires n >= 10
    ensures var d := SeedDirectory(n);
            Sorted(d) && |d| >= 2 && d[0] == Entry(ONE, Meta(ONE, ONE, 0)) && d[1] == Entry(TEN, Meta(TEN, TEN, 9))
    decreases n
  {
    hide Less, Put, ToString;
    if n == 10 {
      SeedTenth();
    } else {
      SeedTwoDigits(n - 1);
      TenIsNext(n);
      PutPastTwo(SeedDirectory(n - 1), SeedEntry(n - 1).key, SeedEntry(n - 1).value);
    }
  }

  lemma SortedNine()
    ensures Sorted(SeedDirectory(9))
  {
    StartInv(9);
    DirectorySorted(Start(9));
  }

  /** Seeding puts the table in node order for at most nine nodes and for no other number. */
  lemma SeedOrderIff(n: nat)
    requires n >= 1
    ensures Inv(Start(n)) <==> n <= 9
    ensures (forall i :: 0 <= i < |SeedDirectory(n)| ==> SeedDirectory(n)[i].value.fd == i) <==> n <= 9
  {
    if n <= 9 {
      SeedOneDigit(n);
      StartInv(n);
    } else {
      SeedTwoDigits(n);
      assert !Announces(SeedDirectory(n)[1], 1);
    }
  }

  // ---------- a run that goes wrong on ten nodes

  lemma {:induction false} ForwardIdleCluster(c: Cluster, i: nat, q: Quota)
    requires Shaped(c) && Fine(c.nodes, 0, |c.nodes|, q)
    ensures ForwardPass(c, i, q) == c
    decreases |c.nodes| - i
  {
    if i + 1 < |c.nodes| {
      ForwardIdleCluster(c, i + 1, q);
    }
  }

  lemma {:induction false} BackwardIdleCluster(c: Cluster, i: nat, q: Quota)
    requires Shaped(c) && i < |c.nodes| && Fine(c.nodes, 0, |c.nodes|, q)
    ensures BackwardPass(c, i, q) == c
    decreases i
  {
    if i > 0 {
      BackwardIdleCluster(c, i - 1, q);
    }
  }

  lemma ReBalanceIdle(c: Cluster)
    requires Shaped(c) && Fine(c.nodes, 0, |c.nodes|, QuotaOf(c.nodes))
    ensures ReBalance(c) == c
  {
    ForwardIdleCluster(c, 0, QuotaOf(c.nodes));
    BackwardIdleCluster(c, |c.nodes| - 1, QuotaOf(c.nodes));
  }

  /** One migration out of node 0 settles everything. */
  lemma ReBalanceOnce(c: Cluster)
    requires Shaped(c) && |c.nodes| >= 2 && c.nodes[0] != [] && !NotTooMuch(c.nodes[0], QuotaOf(c.nodes))
    requires Fine(Migrate(c, 0, true).nodes, 0, |c.nodes|, QuotaOf(c.nodes))
    ensures ReBalance(c) == Migrate(c, 0, true)
  {
    hide Less, Migrate;
    var q, d := QuotaOf(c.nodes), Migrate(c, 0, true);
    MigrateShaped(c, 0, true);
    assert Drained(c, 0, true, q) == Drained(d, 0, true, q) == d;
    ForwardIdleCluster(d, 1, q);
    BackwardIdleCluster(d, |c.nodes| - 1, q);
  }

  /** The bytes of one-character values. */
  const X: Bytes := [120]

  ghost predicate TenSeed(dir: Directory, m: Meta, m2: Meta) {
    Sorted(dir) && |dir| >= 2 && dir[0] == Entry(m.min, m) && dir[1] == Entry(m2.min, m2)
  }

  lemma RestAbove<V>(dir: Table<V>, p: nat, k: Bytes)
    requires Sorted(dir) && p < |dir| && Leq(k, dir[p].key)
    ensures AllAbove(dir[p + 1..], k)
  {
    hide Less;
    var rest := dir[p + 1..];
    forall j | 0 <= j < |rest|
      ensures Less(k, rest[j].key)
    {
      LeqLess(k, dir[p].key, dir[p + 1 + j].key);
    }
  }

  lemma RewriteFirst(dir: Directory, m: Meta)
    requires Sorted(dir) && dir != [] && Leq(m.min, dir[0].key)
    ensures Rewrite(dir, dir[0], m) == dir[0 := Entry(m.min, m)] && Sorted(Rewrite(dir, dir[0], m))
  {
    RestAbove(dir, 0, m.min);
    ReplaceInPlace(dir, 0, m.min, m);
  }

  /** Storing "0" makes it the start of the first node's range. */
  lemma AfterFirstPut(c: Cluster)
    requires Shaped(c) && TenSeed(c.dir, Meta(ONE, ONE, 0), Meta(TEN, TEN, 9)) && |c.nodes| >= 10
    requires forall i :: 0 <= i < |c.nodes| ==> c.nodes[i] == []
    ensures var d := Execute(c, PutCmd(ZERO, X));
            && TenSeed(d.dir, Meta(ZERO, ONE, 0), Meta(TEN, TEN, 9))
            && d.nodes == c.nodes[0 := [Entry(ZERO, X)]]
  {
    hide Less, Put, Delete;
    SmallOrder();
    FloorSplits(c.dir, ZERO);
    LessAsymmetric(ZERO, ONE);
    assert Floor(c.dir, ZERO) == 0;
    RewriteFirst(c.dir, Meta(ZERO, ONE, 0));
    StepsShaped(c, ZERO, X);
    PutFront(c.nodes[0], ZERO, X);
    assert Put(c.nodes[0], ZERO, X) == [Entry(ZERO, X)];
    var d := PutStep(c, ZERO, X);
    assert d.nodes == c.nodes[0 := [Entry(ZERO, X)]];
    ReBalanceIdle(d);
  }

  ghost predicate OnlyFirst(s: Shards, t: Table<Bytes>) {
    |s| >= 10 && s[0] == t && forall i :: 1 <= i < |s| ==> s[i] == []
  }

  lemma {:induction false} TotalOfEmpty(s: Shards)
    requires forall i :: 0 <= i < |s| ==> s[i] == []
    ensures Total(s) == 0
  {
    if s != [] {
      TotalOfEmpty(s[1..]);
    }
  }

  /** Two entries alone on the first of ten nodes or more are too much. */
  lemma TwoAreTooMuch(s: Shards, t: Table<Bytes>)
    requires OnlyFirst(s, t) && |t| == 2 && Weight(t) == 8
    ensures !NotTooMuch(s[0], QuotaOf(s))
  {
    TotalOfEmpty(s[1..]);
    OverTenth(|s|);
  }

  lemma OverTenth(n: nat)
    requires n >= 10
    ensures !WithinShare(8, Quota(8, 1.0 / n as real))
  {
    var p := 1.0 / n as real;
    assert p <= 0.1;
  }

  /** Putting "1" next to "0" moves nothing in the directory yet. */
  lemma SecondPut(c: Cluster)
    requires Shaped(c) && TenSeed(c.dir, Meta(ZERO, ONE, 0), Meta(TEN, TEN, 9)) && OnlyFirst(c.nodes, [Entry(ZERO, X)])
    ensures Routable(c, ONE)
    ensures PutStep(c, ONE, X) == Cluster(c.dir, c.nodes[0 := [Entry(ZERO, X), Entry(ONE, X)]])
  {
    hide Less, Put, Delete;
    SmallOrder();
    LessIrreflexive(ONE);
    FloorUnique(c.dir, ONE, 0);
    LessAsymmetric(ZERO, ONE);
    RewriteFirst(c.dir, Meta(ZERO, ONE, 0));
    assert c.dir[0 := c.dir[0]] == c.dir;
    PutBack(c.nodes[0], ONE, X);
    assert Put(c.nodes[0], ONE, X) == [Entry(ZERO, X), Entry(ONE, X)];
  }

  /** The directory edit after "1" has moved to the second node goes to the tenth node's entry. */
  lemma WrongEntryEdited(dir: Directory)
    requires TenSeed(dir, Meta(ZERO, ONE, 0), Meta(TEN, TEN, 9))
    ensures var r := MoveBoundary(dir, ONE, true, ZERO, ZERO, ONE, ONE);
            && Sorted(r) && |r| >= 2 && Floor(r, ONE) == 1 && r[1].value.fd == 9
  {
    hide Less, Put, Delete;
    SmallOrder();
    FloorUnique(dir, ONE, 0);
    RewriteFirst(dir, Meta(ZERO, ZERO, 0));
    var once := Rewrite(dir, dir[0], Meta(ZERO, ZERO, 0));
    assert once == dir[0 := Entry(ZERO, Meta(ZERO, ZERO, 0))];
    RestAbove(once, 1, ONE);
    assert once[..1] == [once[0]];
    ReplaceInPlace(once, 1, ONE, Meta(ONE, ONE, 9));
    var r := Rewrite(once, once[1], Meta(ONE, ONE, 9));
    assert r == once[1 := Entry(ONE, Meta(ONE, ONE, 9))];
    assert r[2..] == once[2..];
    FloorUnique(r, ONE, 1) by {
      if 2 < |r| {
        assert r[2] == once[2..][0];
      }
    }
  }

  lemma MovedData(s: Shards)
    requires OnlyFirst(s, [Entry(ZERO, X), Entry(ONE, X)])
    ensures Predict(s[0], Log(DELETE, ONE, [])) == (ZERO, ZERO)
    ensures Predict(s[1], Log(PUT, ONE, X)) == (ONE, ONE)
    ensures Delete(s[0], ONE) == [Entry(ZERO, X)] && Put(s[1], ONE, X) == [Entry(ONE, X)]
  {
    hide Less, Put, Delete;
    SmallOrder();
    LessAsymmetric(ZERO, ONE);
    LessIrreflexive(ONE);
    DeleteEnds(s[0]);
    PutFront(s[1], ONE, X);
  }

  /** After the second put the key "1" sits on node 1, but the directory sends it to node 9. */
  lemma SecondPutLoses(c: Cluster)
    requires Shaped(c) && TenSeed(c.dir, Meta(ZERO, ONE, 0), Meta(TEN, TEN, 9)) && OnlyFirst(c.nodes, [Entry(ZERO, X)])
    ensures var d := Execute(c, PutCmd(ONE, X));
            Routable(d, ONE) && GetStep(d, ONE) == []
  {
    hide Less, Put, Delete, Rewrite, MoveBoundary, Predict, NotTooMuch, Floor;
    StepsShaped(c, ONE, X);
    SecondPut(c);
    var p := PutStep(c, ONE, X);
    assert OnlyFirst(p.nodes, [Entry(ZERO, X), Entry(ONE, X)]);
    WeightTwo();
    TwoAreTooMuch(p.nodes, p.nodes[0]);
    MovedData(p.nodes);
    WrongEntryEdited(p.dir);
    var r := Migrate(p, 0, true);
    SmallNodesFine(r.nodes, QuotaOf(p.nodes));
    ReBalanceOnce(p);
    assert r.nodes[9] == [];
    NothingFound(ONE);
  }

  lemma WeightTwo()
    ensures Weight([Entry(ZERO, X), Entry(ONE, X)]) == 8
  {
    assert [Entry(ZERO, X), Entry(ONE, X)] == [Entry(ZERO, X)] + [Entry(ONE, X)];
    WeightConcat([Entry(ZERO, X)], [Entry(ONE, X)]);
    WeightOne(Entry(ZERO, X));
    WeightOne(Entry(ONE, X));
  }

  lemma SmallNodesFine(s: Shards, q: Quota)
    requires forall i :: 0 <= i < |s| ==> |s[i]| <= 1
    ensures Fine(s, 0, |s|, q)
  {
  }

  lemma NothingFound(k: Bytes)
    ensures GetData([], k) == []
  {
  }

  const LOSING_RUN: seq<Command> := [PutCmd(ZERO, X), PutCmd(ONE, X), GetCmd(ONE)]

  /** With ten nodes or more, two puts and a get are enough to lose a key. */
  lemma TenNodesLoseKey(n: nat)
    requires n >= 10
    ensures Shaped(Start(n))
    ensures forall i :: 0 <= i < |LOSING_RUN| ==> CommandFits(LOSING_RUN[i])
    ensures Answers(Start(n), LOSING_RUN) == [None, None, Some([])]
    ensures MapAnswers(map[], LOSING_RUN) == [None, None, Some(X)]
  {
    hide Less, Execute, PutStep, GetStep, SeedDirectory, CommandFits;
    StartShaped(n);
    SeedTwoDigits(n);
    var c := Start(n);
    AfterFirstPut(c);
    var d := Execute(c, PutCmd(ZERO, X));
    SecondPutLoses(d);
    RunFits();
    ThreeAnswers(c, PutCmd(ZERO, X), PutCmd(ONE, X), GetCmd(ONE));
    ThreeMapAnswers(map[], PutCmd(ZERO, X), PutCmd(ONE, X), GetCmd(ONE));
  }

  lemma ThreeAnswers(c: Cluster, x: Command, y: Command, z: Command)
    requires Shaped(c)
    ensures Answers(c, [x, y, z])
         == [Printed(c, x), Printed(Execute(c, x), y), Printed(Execute(Execute(c, x), y), z)]
  {
    hide Execute, Printed, Shaped;
    assert [x, y, z][1..] == [y, z] && [y, z][1..] == [z] && [z][1..] == [];
    var d := Execute(Execute(c, x), y);
    assert Answers(Execute(d, z), []) == [];
    assert Answers(d, [z]) == [Printed(d, z)];
    assert Answers(Execute(c, x), [y, z]) == [Printed(Execute(c, x), y), Printed(d, z)];
  }

  lemma ThreeMapAnswers(m: map<Bytes, Bytes>, x: Command, y: Command, z: Command)
    ensures var m1, m2 := MapExecute(m, x), MapExecute(MapExecute(m, x), y);
            MapAnswers(m, [x, y, z]) == [MapPrinted(m, x), MapPrinted(m1, y), MapPrinted(m2, z)]
  {
    hide MapExecute, MapPrinted;
    assert [x, y, z][1..] == [y, z] && [y, z][1..] == [z] && [z][1..] == [];
    var m2 := MapExecute(MapExecute(m, x), y);
    assert MapAnswers(MapExecute(m2, z), []) == [];
    assert MapAnswers(m2, [z]) == [MapPrinted(m2, z)];
    assert MapAnswers(MapExecute(m, x), [y, z]) == [MapPrinted(MapExecute(m, x), y), MapPrinted(m2, z)];
  }

  lemma RunFits()
    ensures CommandFits(PutCmd(ZERO, X)) && CommandFits(PutCmd(ONE, X)) && CommandFits(GetCmd(ONE))
  {
  }

  lemma StartShaped(n: nat)
    requires n >= 1
    ensures Shaped(Start(n))
  {
    hide ToString, Put;
    SeedNames(n, n);
  }

  lemma {:induction false} SeedNames(k: nat, n: nat)
    requires k <= n
    ensures NamesNodes(SeedDirectory(k), n) && (k > 0 ==> SeedDirectory(k) != [])
    decreases k
  {
    hide ToString, Put;
    if k > 0 {
      SeedNames(k - 1, n);
      SeedStep(k);
      PutNames(SeedDirectory(k - 1), SeedEntry(k - 1).key, SeedEntry(k - 1).value, n);
    }
  }

  lemma StartEmpty(n: nat)
    requires n >= 1 && Inv(Start(n))
    ensures Content(Start(n)) == map[]
  {
    FlattenOfEmpty(Start(n).nodes);
    assert Keys(Flatten(Start(n).nodes)) == {};
  }

  lemma {:induction false} FlattenOfEmpty(s: Shards)
    requires forall i :: 0 <= i < |s| ==> s[i] == []
    ensures Flatten(s) == []
  {
    if s != [] {
      FlattenOfEmpty(s[1..]);
    }
  }

  /** A freshly seeded cluster of n nodes answers every run of commands as one map does if and only if
      it has at most nine nodes. */
  lemma FreshClusterIsMapIff(n: nat)
    requires n >= 1
    ensures Shaped(Start(n))
    ensures n <= 9 <==>
            forall cmds: seq<Command> :: (forall i :: 0 <= i < |cmds| ==> CommandFits(cmds[i])) ==>
              Answers(Start(n), cmds) == MapAnswers(map[], cmds)
  {
    hide Less, Answers, MapAnswers, Inv, Shaped, SeedDirectory, CommandFits;
    StartShaped(n);
    if n <= 9 {
      StartInv(n);
      StartEmpty(n);
      forall cmds: seq<Command> | forall i :: 0 <= i < |cmds| ==> CommandFits(cmds[i])
        ensures Answers(Start(n), cmds) == MapAnswers(map[], cmds)
      {
        RunRefinesMap(Start(n), cmds);
      }
    } else {
      TenNodesLoseKey(n);
      assert [None, None, Some([])][2] != [None, None, Some(X)][2];
    }
  }
}
