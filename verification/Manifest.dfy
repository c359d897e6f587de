/** manifest.cpp: the table list, its id counter, and the directory scan that can replace them. */
module Manifest {
  import opened Bytes
  import opened Sequences
  import opened Text
  import opened Entries
  import opened FileSystem
  import opened SSTable
  import opened ManifestText
  import opened TableNames
  import opened Engine

  predicate IncreasingIds(tables: seq<Meta>)
  {
    forall i, j :: 0 <= i < j < |tables| ==> tables[i].id < tables[j].id
  }

  /** Ids strictly increase along the list and stay below the next id. */
  predicate IdsOrdered(tables: seq<Meta>, next: nat)
  {
    IncreasingIds(tables) && forall i :: 0 <= i < |tables| ==> tables[i].id < next
  }

  // ---------------------------------------------------------------------------
  // The order of a rebuilt list does not depend on the directory's order
  // ---------------------------------------------------------------------------

  lemma {:induction false} SameTables(a: seq<Meta>, b: seq<Meta>)
    requires IncreasingIds(a) && IncreasingIds(b)
    requires forall x :: x in a <==> x in b
    ensures a == b
  {
    assert b != [] ==> b[0] in b;
    if a == [] {
      assert b == [];
    } else {
      assert a[0] in b;
      var m, n := |a| - 1, |b| - 1;
      assert a[m] in b && b[n] in a;
      var i :| 0 <= i < |b| && b[i] == a[m];
      var j :| 0 <= j < |a| && a[j] == b[n];
      assert i == n;
      var ia, ib := a[..m], b[..n];
      forall x
        ensures x in ia <==> x in ib
      {
        WithoutLast(a, b, x);
        WithoutLast(b, a, x);
      }
      SameTables(ia, ib);
      assert a == ia + [a[m]] && b == ib + [b[n]];
    }
  }

  lemma WithoutLast(a: seq<Meta>, b: seq<Meta>, x: Meta)
    requires IncreasingIds(a) && IncreasingIds(b) && a != [] && b != []
    requires forall y :: y in a <==> y in b
    requires a[|a| - 1] == b[|b| - 1]
    ensures x in a[..|a| - 1] ==> x in b[..|b| - 1]
  {
    if x in a[..|a| - 1] {
      var i :| 0 <= i < |a| - 1 && a[i] == x;
      assert x in a;
      var j :| 0 <= j < |b| && b[j] == x;
      assert b[..|b| - 1][j] == x;
    }
  }

  /** x is what some directory entry with an id below n contributes. */
  ghost predicate ContributedBelow(directory: bytes, files: Files, n: nat, x: Meta)
  {
    exists i: nat :: i < n && x in Contribution(directory, files, i)
  }

  lemma {:induction false} RebuiltMembers(directory: bytes, files: Files, n: nat)
    ensures IdsOrdered(Rebuilt(directory, files, n), n)
    ensures forall x :: x in Rebuilt(directory, files, n) <==> ContributedBelow(directory, files, n, x)
  {
    hide *;
    if n == 0 {
      NothingRebuilt(directory, files);
    } else {
      RebuiltMembers(directory, files, n - 1);
      RebuiltIs(directory, files, n - 1);
      ContributionId(directory, files, n - 1);
      var init, last := Rebuilt(directory, files, n - 1), Contribution(directory, files, n - 1);
      AppendOrdered(init, last, n - 1);
      forall x
        ensures x in init + last <==> ContributedBelow(directory, files, n, x)
      {
        ContributedStep(directory, files, n - 1, x);
      }
    }
  }

  lemma NothingRebuilt(directory: bytes, files: Files)
    ensures Rebuilt(directory, files, 0) == [] && IdsOrdered([], 0)
    ensures forall x :: !ContributedBelow(directory, files, 0, x)
  {
  }

  lemma ContributedStep(directory: bytes, files: Files, n: nat, x: Meta)
    ensures ContributedBelow(directory, files, n + 1, x)
            <==> ContributedBelow(directory, files, n, x) || x in Contribution(directory, files, n)
  {
    hide Contribution;
    if ContributedBelow(directory, files, n, x) {
      var i: nat :| i < n && x in Contribution(directory, files, i);
      assert i < n + 1;
    }
  }

  lemma AppendOrdered(init: seq<Meta>, last: seq<Meta>, n: nat)
    requires IdsOrdered(init, n) && |last| <= 1 && forall x :: x in last ==> x.id == n
    ensures IdsOrdered(init + last, n + 1)
  {
    assert last != [] ==> last[0] in last;
  }

  /**
   * A new last table with a new id below the last of 64 bits keeps the order, and taking it off again with the
   * larger counter does too.
   */
  lemma OneMore(tables: seq<Meta>, next: nat, t: Meta)
    ensures IdsOrdered(tables, next) && t.id >= next && t.id + 1 < TWO_64
            ==> IdsOrdered(tables + [t], NextId(t.id)) && IdsOrdered(tables, NextId(t.id))
    ensures t.id + 1 >= TWO_64 ==> !IdsOrdered(tables + [t], NextId(t.id))
    ensures IdsOrdered([], 1)
  {
    if t.id + 1 >= TWO_64 {
      NextWraps(t.id);
      assert (tables + [t])[|tables|] == t;
    }
  }

  lemma RebuiltIs(directory: bytes, files: Files, n: nat)
    ensures Rebuilt(directory, files, n + 1) == Rebuilt(directory, files, n) + Contribution(directory, files, n)
  {
    hide ParseTable, TableName, MetaOf;
  }

  lemma ContributionId(directory: bytes, files: Files, i: nat)
    ensures |Contribution(directory, files, i)| <= 1
    ensures forall x :: x in Contribution(directory, files, i) ==> x.id == i
  {
    hide ParseTable, TableName, SortedItems;
  }

  /** x is what some file of the directory contributes. */
  ghost predicate Contributed(directory: bytes, files: Files, x: Meta)
  {
    exists i: nat :: TableName(directory, i) in files && x in Contribution(directory, files, i)
  }

  lemma ContributedIsBelow(directory: bytes, files: Files, n: nat, x: Meta)
    requires IdsBelow(directory, files, n)
    ensures Contributed(directory, files, x) <==> ContributedBelow(directory, files, n, x)
  {
    hide Contribution, TableName;
    if Contributed(directory, files, x) {
      var i: nat :| TableName(directory, i) in files && x in Contribution(directory, files, i);
      assert i < n;
    }
    if ContributedBelow(directory, files, n, x) {
      var i: nat :| i < n && x in Contribution(directory, files, i);
      ContributionHasFile(directory, files, i);
    }
  }

  /** Any increasing list of all contributions is the rebuilt list. */
  lemma RebuiltFromMembers(directory: bytes, files: Files, tables: seq<Meta>)
    requires IncreasingIds(tables)
    requires forall x :: x in tables <==> Contributed(directory, files, x)
    ensures tables == RebuiltAll(directory, files)
  {
    hide Rebuilt, Contributed, ContributedBelow, IdsBelow, IdBound;
    var n := IdBound(directory, files);
    RebuiltMembers(directory, files, n);
    var all := Rebuilt(directory, files, n);
    forall x
      ensures x in tables <==> x in all
    {
      ContributedIsBelow(directory, files, n, x);
    }
    SameTables(tables, all);
  }

  lemma ContributionHasFile(directory: bytes, files: Files, i: nat)
    requires Contribution(directory, files, i) != []
    ensures TableName(directory, i) in files
  {
    hide ParseTable, TableName, MetaOf;
  }

  // ---------------------------------------------------------------------------
  // Metadata recomputed from a table's contents
  // ---------------------------------------------------------------------------

  /** lo and hi are the least and the greatest of some keys. */
  predicate IsRange(keys: set<bytes>, lo: bytes, hi: bytes)
  {
    lo in keys && hi in keys && forall k :: k in keys ==> !Less(k, lo) && !Less(hi, k)
  }

  lemma RangeIsMeta(id: nat, name: bytes, d: Data, lo: bytes, hi: bytes)
    requires IsRange(d.Keys, lo, hi)
    ensures MetaOf(id, name, d) == Meta(id, name, lo, hi, |d|)
  {
    SortedItemsHold(d);
    var items := SortedItems(d);
    assert Item(lo, d[lo]) in items && Item(hi, d[hi]) in items;
    var i :| 0 <= i < |items| && items[i] == Item(lo, d[lo]);
    var j :| 0 <= j < |items| && items[j] == Item(hi, d[hi]);
    assert items[0] in items && items[|items| - 1] in items;
    hide SortedItems, Less;
    LessTrichotomy(items[0].key, lo);
    LessTrichotomy(hi, items[|items| - 1].key);
  }

  /** hi is the greatest of some keys. */
  predicate IsGreatest(keys: set<bytes>, hi: bytes)
  {
    hi in keys && forall k :: k in keys ==> !Less(hi, k)
  }

  /**
   * What has been found of the keys seen so far: the greatest; and the least, unless the empty key is among them,
   * which starts the search for the least one over.
   */
  predicate RangeSoFar(seen: set<bytes>, lo: bytes, hi: bytes)
  {
    if seen == {} then lo == [] && hi == []
    else lo in seen && IsGreatest(seen, hi) && ([] !in seen ==> IsRange(seen, lo, hi))
  }

  lemma GreatestGrows(keys: set<bytes>, hi: bytes, key: bytes)
    requires if keys == {} then hi == [] else IsGreatest(keys, hi)
    ensures IsGreatest(keys + {key}, if hi == [] || Less(hi, key) then key else hi)
  {
    LessTrichotomy(key, key);
    LessTrichotomy(hi, key);
    LessTrichotomy(hi, hi);
    if hi == [] {
      forall k | k in keys
        ensures !Less(key, k)
      {
        LessTrichotomy(hi, k);
        assert k == hi;
      }
    } else {
      hide Less;
      forall k | k in keys
        ensures Less(hi, key) ==> !Less(key, k)
      {
        if Less(hi, key) && Less(key, k) { LessTransitive(hi, key, k); }
      }
    }
  }

  lemma LeastGrows(keys: set<bytes>, lo: bytes, hi: bytes, key: bytes)
    requires [] !in keys && key != [] && (keys == {} ==> lo == [] && hi == []) && (keys != {} ==> IsRange(keys, lo, hi))
    ensures IsRange(keys + {key}, if lo == [] || Less(key, lo) then key else lo, if hi == [] || Less(hi, key) then key else hi)
  {
    LessTrichotomy(key, key);
    LessTrichotomy(key, lo);
    LessTrichotomy(hi, key);
    hide Less;
    assert key in keys + {key};
    forall k | k in keys
      ensures Less(key, lo) ==> !Less(k, key)
      ensures Less(hi, key) ==> !Less(key, k)
    {
      if Less(key, lo) && Less(k, key) { LessTransitive(k, key, lo); }
      if Less(hi, key) && Less(key, k) { LessTransitive(hi, key, k); }
    }
  }

  lemma RangeGrows(seen: set<bytes>, lo: bytes, hi: bytes, key: bytes)
    requires RangeSoFar(seen, lo, hi)
    ensures RangeSoFar(seen + {key}, if lo == [] || Less(key, lo) then key else lo, if hi == [] || Less(hi, key) then key else hi)
  {
    hide IsRange, IsGreatest, Less;
    GreatestGrows(seen, hi, key);
    if [] !in seen + {key} {
      LeastGrows(seen, lo, hi, key);
    }
  }

  lemma RangeIsWhole(d: Data, lo: bytes, hi: bytes)
    requires RangeSoFar(d.Keys, lo, hi) && d != map[]
    ensures [] !in d ==> IsRange(d.Keys, lo, hi)
  {
    assert d.Keys != {};
    hide IsRange, IsGreatest;
  }

  /** The greatest key, and the least one of a table without the empty key. */
  method KeyRange(data: Data) returns (smallest: bytes, largest: bytes)
    ensures RangeSoFar(data.Keys, smallest, largest)
  {
    smallest, largest := [], [];
    var left := data.Keys;
    assert data.Keys - left == {};
    while left != {}
      invariant left <= data.Keys
      invariant RangeSoFar(data.Keys - left, smallest, largest)
      decreases |left|
    {
      hide RangeSoFar, Less;
      var key :| key in left;
      ghost var seen := data.Keys - left;
      RangeGrows(seen, smallest, largest, key);
      if smallest == [] || Less(key, smallest) {
        smallest := key;
      }
      if largest == [] || Less(largest, key) {
        largest := key;
      }
      left := left - {key};
      assert data.Keys - left == seen + {key};
    }
    assert data.Keys - left == data.Keys;
  }

  predicate DistinctIds(tables: seq<Meta>)
  {
    forall i, j :: 0 <= i < j < |tables| ==> tables[i].id != tables[j].id
  }

  /** Sorted by id, two files possibly printing the same one. */
  predicate NonDecreasing(tables: seq<Meta>)
  {
    forall i, j :: 0 <= i < j < |tables| ==> tables[i].id <= tables[j].id
  }

  /** Stands for std::sort by id; the order of distinct ids does not depend on the algorithm. */
  method SortById(entries: seq<Meta>) returns (sorted: seq<Meta>)
    ensures DistinctIds(entries) ==> IncreasingIds(sorted)
    ensures NonDecreasing(sorted)
    ensures forall x :: x in sorted <==> x in entries
  {
    sorted := [];
    for i := 0 to |entries|
      invariant DistinctIds(entries) ==> IncreasingIds(sorted)
      invariant NonDecreasing(sorted)
      invariant forall x :: x in sorted <==> x in entries[..i]
    {
      assert entries[..i + 1] == entries[..i] + [entries[i]];
      if DistinctIds(entries) {
        forall x | x in sorted
          ensures x.id != entries[i].id
        {
          assert x in entries[..i];
        }
      }
      sorted := InsertById(sorted, entries[i]);
    }
    assert entries[..|entries|] == entries;
  }

  method InsertById(sorted: seq<Meta>, item: Meta) returns (r: seq<Meta>)
    requires NonDecreasing(sorted)
    ensures NonDecreasing(r)
    ensures IncreasingIds(sorted) && (forall x :: x in sorted ==> x.id != item.id) ==> IncreasingIds(r)
    ensures forall x :: x in r <==> x in sorted || x == item
  {
    var p := 0;
    while p < |sorted| && sorted[p].id < item.id
      invariant p <= |sorted|
      invariant forall i :: 0 <= i < p ==> sorted[i].id < item.id
    {
      p := p + 1;
    }
    assert p < |sorted| ==> sorted[p] in sorted;
    r := sorted[..p] + [item] + sorted[p..];
    InsertedMembers(sorted, p, item);
    InsertedInOrder(sorted, p, item);
    if IncreasingIds(sorted) && forall x :: x in sorted ==> x.id != item.id {
      InsertedIdOrder(sorted, p, item);
    }
  }

  lemma InsertedInOrder(sorted: seq<Meta>, p: nat, item: Meta)
    requires p <= |sorted| && NonDecreasing(sorted)
    requires forall i :: 0 <= i < p ==> sorted[i].id < item.id
    requires p < |sorted| ==> item.id <= sorted[p].id
    ensures NonDecreasing(sorted[..p] + [item] + sorted[p..])
  {
  }

  lemma InsertedIdOrder(sorted: seq<Meta>, p: nat, item: Meta)
    requires p <= |sorted| && IncreasingIds(sorted)
    requires forall i :: 0 <= i < p ==> sorted[i].id < item.id
    requires p < |sorted| ==> item.id < sorted[p].id
    ensures IncreasingIds(sorted[..p] + [item] + sorted[p..])
  {
  }

  /** The largest id seen, 0 when there is none. */
  predicate IsLargest(tables: seq<Meta>, largest: nat)
  {
    && (forall x :: x in tables ==> x.id <= largest)
    && (if tables == [] then largest == 0 else exists i :: 0 <= i < |tables| && tables[i].id == largest)
  }

  lemma LargestGrows(tables: seq<Meta>, largest: nat, found: seq<Meta>)
    requires IsLargest(tables, largest) && |found| <= 1
    ensures IsLargest(tables + found, if |found| == 1 && found[0].id > largest then found[0].id else largest)
  {
    var all := tables + found;
    if |found| == 1 && (tables == [] || found[0].id > largest) {
      assert all[|tables|].id == found[0].id;
    } else if tables != [] {
      var i :| 0 <= i < |tables| && tables[i].id == largest;
      assert all[i].id == largest;
    }
  }

  lemma LargestIsLast(tables: seq<Meta>, largest: nat, sorted: seq<Meta>)
    requires IsLargest(tables, largest) && NonDecreasing(sorted) && forall x :: x in sorted <==> x in tables
    ensures NextAfter(sorted) == if (largest + 1) % TWO_64 == 0 then 1 else (largest + 1) % TWO_64
  {
    assert sorted != [] ==> sorted[0] in sorted;
    if tables != [] {
      var i :| 0 <= i < |tables| && tables[i].id == largest;
      assert tables[i] in sorted;
      var j :| 0 <= j < |sorted| && sorted[j] == tables[i];
      assert sorted[|sorted| - 1] in tables;
    }
  }

  /** The next id chosen after a rebuild exceeds every listed id, unless the largest one is the last of 64 bits. */
  lemma NextAfterOrders(tables: seq<Meta>)
    requires IncreasingIds(tables)
    ensures IdsOrdered(tables, NextAfter(tables)) <==> forall i :: 0 <= i < |tables| ==> tables[i].id + 1 < TWO_64
  {
    if tables != [] {
      var last := tables[|tables| - 1];
      assert forall i :: 0 <= i < |tables| ==> tables[i].id <= last.id;
      if last.id + 1 >= TWO_64 {
        NextWraps(last.id);
      }
    }
  }

  /** And while no id is that last one, it is the least number above them all. */
  lemma NextAfterIsLeast(tables: seq<Meta>, n: nat)
    requires IncreasingIds(tables) && (forall i :: 0 <= i < |tables| ==> tables[i].id + 1 < TWO_64)
    requires 1 <= n && IdsOrdered(tables, n)
    ensures NextAfter(tables) <= n
  {
    if tables != [] {
      assert tables[|tables| - 1].id < n;
    }
  }

  lemma NextWraps(id: nat)
    requires id + 1 >= TWO_64
    ensures (id + 1) % TWO_64 <= id
  {
  }

  /** Every file is a table file by the engine's naming, and no readable table has the empty key. */
  ghost predicate Rebuildable(directory: bytes, files: Files)
  {
    forall name :: name in files ==>
      && (exists i: nat :: i < TWO_64 && name == TableName(directory, i))
      && (Load(files, name).Loaded? ==> [] !in Load(files, name).data)
  }

  lemma NameGivesId(directory: bytes, name: bytes, i: nat)
    ensures i < TWO_64 && name == TableName(directory, i) ==> IdOf(directory, name) == Some(i)
    ensures forall j: nat :: i < TWO_64 && name == TableName(directory, i) && name == TableName(directory, j) ==> i == j
  {
    hide *;
    if i < TWO_64 && name == TableName(directory, i) {
      IdOfTableName(directory, i);
      forall j: nat | name == TableName(directory, j)
        ensures i == j
      {
        TableNameInjective(directory, i, j);
      }
    }
  }

  /** A directory entry that is passed over: its name gives no id, or it does not load as a non-empty table. */
  predicate Skipped(directory: bytes, files: Files, name: bytes)
  {
    || IdOf(directory, name).None?
    || Load(files, name).Rejected?
    || Load(files, name).data == map[]
  }

  /** x is what a directory entry under this name, whoever named it, is listed as. */
  predicate Describes(directory: bytes, files: Files, name: bytes, x: Meta)
  {
    && !Skipped(directory, files, name)
    && x.id == IdOf(directory, name).value && x.filename == name
    && x.entryCount == |Load(files, name).data|
    && RangeSoFar(Load(files, name).data.Keys, x.smallest, x.largest)
  }

  /** The list holds a description of each entry seen that is not passed over, and nothing else. */
  ghost predicate DescribesAll(directory: bytes, files: Files, seen: set<bytes>, tables: seq<Meta>)
  {
    && (forall x :: x in tables ==> x.filename in seen && Describes(directory, files, x.filename, x))
    && (forall name :: name in seen && !Skipped(directory, files, name) ==> exists x :: x in tables && x.filename == name)
  }

  lemma DescribeOne(directory: bytes, files: Files, seen: set<bytes>, tables: seq<Meta>, name: bytes, found: seq<Meta>)
    requires DescribesAll(directory, files, seen, tables)
    requires if Skipped(directory, files, name) then found == []
             else |found| == 1 && Describes(directory, files, name, found[0])
    ensures DescribesAll(directory, files, seen + {name}, tables + found)
  {
    hide Skipped, Describes;
    var more := tables + found;
    DescribedName(directory, files, name, found);
    forall other | other in seen + {name} && !Skipped(directory, files, other)
      ensures exists x :: x in more && x.filename == other
    {
      if other == name {
        assert found[0] in more;
      } else {
        var x :| x in tables && x.filename == other;
        assert x in more;
      }
    }
  }

  lemma DescribedName(directory: bytes, files: Files, name: bytes, found: seq<Meta>)
    ensures |found| == 1 && Describes(directory, files, name, found[0]) ==> found[0].filename == name
  {
    hide Skipped, RangeSoFar;
  }

  lemma SameDescribed(directory: bytes, files: Files, seen: set<bytes>, tables: seq<Meta>, sorted: seq<Meta>)
    requires DescribesAll(directory, files, seen, tables) && forall x :: x in sorted <==> x in tables
    ensures DescribesAll(directory, files, seen, sorted)
  {
    hide Skipped, Describes;
    forall name | name in seen && !Skipped(directory, files, name)
      ensures exists x :: x in sorted && x.filename == name
    {
      var x :| x in tables && x.filename == name;
      assert x in sorted;
    }
  }

  lemma NothingDescribed(directory: bytes, files: Files)
    ensures DescribesAll(directory, files, files.Keys - files.Keys, [])
  {
  }

  /** The tables found among the files already visited. */
  ghost predicate Collected(directory: bytes, files: Files, seen: set<bytes>, rebuilt: seq<Meta>)
  {
    && DistinctIds(rebuilt)
    && forall x :: x in rebuilt <==> ContributedFrom(directory, files, seen, x)
  }

  ghost predicate ContributedFrom(directory: bytes, files: Files, seen: set<bytes>, x: Meta)
  {
    exists i: nat :: TableName(directory, i) in seen && x in Contribution(directory, files, i)
  }

  lemma NothingContributed(directory: bytes, files: Files)
    ensures Collected(directory, files, files.Keys - files.Keys, []) && IsLargest([], 0)
  {
  }

  lemma CollectOne(directory: bytes, files: Files, seen: set<bytes>, rebuilt: seq<Meta>, name: bytes, found: seq<Meta>)
    requires Collected(directory, files, seen, rebuilt) && name in files && name !in seen
    requires Rebuildable(directory, files)
    requires forall i: nat :: name == TableName(directory, i) && Rebuildable(directory, files) ==> found == Contribution(directory, files, i)
    ensures Collected(directory, files, seen + {name}, rebuilt + found)
  {
    var id: nat :| id < TWO_64 && name == TableName(directory, id);
    NameGivesId(directory, name, id);
    ContributionId(directory, files, id);
    hide *;
    CollectedParts(directory, files, seen, rebuilt);
    forall x
      ensures x in rebuilt + found <==> ContributedFrom(directory, files, seen + {name}, x)
    {
      ContributedMore(directory, files, seen, name, id, x);
    }
    forall x | x in rebuilt
      ensures x.id != id
    {
      ContributedIdSeen(directory, files, seen, name, id, x);
    }
    DistinctAppend(rebuilt, found, id);
    MakeCollected(directory, files, seen + {name}, rebuilt + found);
  }

  lemma CollectedParts(directory: bytes, files: Files, seen: set<bytes>, rebuilt: seq<Meta>)
    requires Collected(directory, files, seen, rebuilt)
    ensures DistinctIds(rebuilt)
    ensures forall x :: x in rebuilt <==> ContributedFrom(directory, files, seen, x)
  {
    hide DistinctIds, ContributedFrom;
  }

  lemma MakeCollected(directory: bytes, files: Files, seen: set<bytes>, rebuilt: seq<Meta>)
    requires DistinctIds(rebuilt)
    requires forall x :: x in rebuilt <==> ContributedFrom(directory, files, seen, x)
    ensures Collected(directory, files, seen, rebuilt)
  {
    hide DistinctIds, ContributedFrom;
  }

  lemma ContributedMore(directory: bytes, files: Files, seen: set<bytes>, name: bytes, id: nat, x: Meta)
    requires name == TableName(directory, id)
    requires forall j: nat :: name == TableName(directory, j) ==> id == j
    ensures ContributedFrom(directory, files, seen + {name}, x)
            <==> ContributedFrom(directory, files, seen, x) || x in Contribution(directory, files, id)
  {
    hide Contribution, TableName;
    if ContributedFrom(directory, files, seen, x) {
      var i: nat :| TableName(directory, i) in seen && x in Contribution(directory, files, i);
      assert TableName(directory, i) in seen + {name};
    }
    assert TableName(directory, id) in seen + {name};
  }

  lemma ContributedIdSeen(directory: bytes, files: Files, seen: set<bytes>, name: bytes, id: nat, x: Meta)
    requires name == TableName(directory, id) && name !in seen
    requires ContributedFrom(directory, files, seen, x)
    ensures x.id != id
  {
    hide Contribution, TableName;
    var i: nat :| TableName(directory, i) in seen && x in Contribution(directory, files, i);
    ContributionId(directory, files, i);
  }

  lemma DistinctAppend(tables: seq<Meta>, found: seq<Meta>, id: nat)
    requires DistinctIds(tables) && |found| <= 1 && (forall x :: x in found ==> x.id == id)
    requires forall x :: x in tables ==> x.id != id
    ensures DistinctIds(tables + found)
  {
    assert found != [] ==> found[0] in found;
    assert forall i :: 0 <= i < |tables| ==> tables[i] in tables;
  }

  lemma CollectedAll(directory: bytes, files: Files, rebuilt: seq<Meta>, sorted: seq<Meta>)
    requires Collected(directory, files, files.Keys, rebuilt)
    requires DistinctIds(rebuilt) ==> IncreasingIds(sorted)
    requires forall x :: x in sorted <==> x in rebuilt
    ensures IncreasingIds(sorted) && sorted == RebuiltAll(directory, files)
  {
    hide Contribution, TableName, RebuiltAll;
    forall x
      ensures x in sorted <==> Contributed(directory, files, x)
    {
      assert ContributedFrom(directory, files, files.Keys, x) <==> Contributed(directory, files, x);
    }
    RebuiltFromMembers(directory, files, sorted);
  }

  // ---------------------------------------------------------------------------
  // The class
  // ---------------------------------------------------------------------------

  /** The list and counter as they are when there is no MANIFEST file. */
  function OnDisk(manifest: Option<bytes>): Contents
  {
    if manifest.None? then Contents(1, []) else Read(manifest.value)
  }

  lemma OnDiskIs(manifest: Option<bytes>)
    ensures OnDisk(manifest) == if manifest.None? then Contents(1, []) else Read(manifest.value)
  {
    hide Read;
  }

  lemma ReadParts(text: bytes)
    ensures ReadNumber(text).NoNumber? ==> Read(text) == Invalid
    ensures ReadNumber(text).GotNumber? && ReadNumber(ReadNumber(text).rest).NoNumber? ==> Read(text) == Invalid
    ensures ReadNumber(text).GotNumber? && ReadNumber(ReadNumber(text).rest).GotNumber?
      ==> var next, count := ReadNumber(text), ReadNumber(ReadNumber(text).rest);
          var lines := ReadLines(count.rest, count.value, []);
          Read(text) == if lines.BadLines? || ReadWord(lines.rest).GotWord? then Invalid else Contents(next.value, lines.tables)
  {
    hide ReadNumber, ReadLines, ReadWord;
  }

  /** The loop over the table lines; a bad line leaves the tables read so far. */
  method ReadTables(text: bytes, count: nat) returns (r: LinesResult, tables: seq<Meta>)
    ensures r == ReadLines(text, count, [])
    ensures r.GotLines? ==> tables == r.tables
  {
    hide *;
    tables := [];
    var s := text;
    for i := 0 to count
      invariant ReadLines(text, count, []) == ReadLines(s, count - i, tables)
    {
      ReadLinesHead(s, count - i, tables);
      var line := ReadLine(s);
      if line.BadLine? {
        return BadLines, tables;
      }
      tables := tables + [line.meta];
      s := line.rest;
    }
    ReadLinesHead(s, 0, tables);
    r := GotLines(tables, s);
  }

  class Manifest {
    const disk: Disk
    var tables: seq<Meta>
    var next: nat

    constructor (disk: Disk)
      ensures this.disk == disk && tables == [] && next == 1
    {
      this.disk := disk;
      tables, next := [], 1;
    }

    /** Fails on text it cannot read. */
    method LoadFile() returns (ok: bool)
      modifies this
      ensures ok <==> OnDisk(disk.manifest).Contents?
      ensures ok ==> OnDisk(disk.manifest) == Contents(next, tables)
    {
      OnDiskIs(disk.manifest);
      hide *;
      tables, next := [], 1;
      if disk.manifest.None? {
        return true;
      }
      ghost var text := disk.manifest.value;
      ReadParts(text);
      var header := ReadNumber(disk.manifest.value);
      if header.NoNumber? {
        return false;
      }
      next := header.value;
      var count := ReadNumber(header.rest);
      if count.NoNumber? {
        return false;
      }
      var lines;
      lines, tables := ReadTables(count.rest, count.value);
      if lines.BadLines? {
        return false;
      }
      var extra := ReadWord(lines.rest);
      ok := extra.NoWord?;
    }

    /** Writes the text to a temporary file and renames it; `succeeds` is the outcome of that I/O. */
    method Persist(succeeds: bool) returns (ok: bool)
      modifies disk
      ensures ok == succeeds
      ensures ok ==> disk.Now() == WithManifest(old(disk.Now()), next, tables)
                     && disk.trace == old(disk.trace) + [disk.Now()]
      ensures !ok ==> disk.Now() == old(disk.Now()) && disk.trace == old(disk.trace)
    {
      hide Line, Dec;
      var text := Dec(next) + [NEWLINE];
      text := text + Dec(|tables|) + [NEWLINE];
      ghost var header := text;
      for i := 0 to |tables|
        invariant text == header + Lines(tables[..i])
      {
        assert tables[..i + 1][..i] == tables[..i];
        text := text + Line(tables[i]);
      }
      assert tables[..|tables|] == tables;
      if !succeeds {
        return false;
      }
      disk.RenameManifest(text);
      return true;
    }

    /** A failed persist takes the table off the list again, and resets the counter only for an empty list. */
    method AddTable(table: Meta, succeeds: bool) returns (ok: bool)
      modifies this, disk
      ensures ok == succeeds
      ensures ok ==> tables == old(tables) + [table] && next == (if table.id >= old(next) then NextId(table.id) else old(next))
                     && disk.Now() == WithManifest(old(disk.Now()), next, tables)
                     && disk.trace == old(disk.trace) + [disk.Now()]
      ensures !ok ==> tables == old(tables) && disk.Now() == old(disk.Now()) && disk.trace == old(disk.trace)
                      && next == (if tables == [] then 1 else if table.id >= old(next) then NextId(table.id) else old(next))
      ensures old(IdsOrdered(tables, next)) && table.id >= old(next) && table.id + 1 < TWO_64 ==> IdsOrdered(tables, next)
      ensures ok && table.id >= old(next) && table.id + 1 >= TWO_64 ==> !IdsOrdered(tables, next)
    {
      hide IdsOrdered, Print, NextId;
      OneMore(tables, next, table);
      tables := tables + [table];
      if table.id >= next {
        next := NextId(table.id);
      }
      ok := Persist(succeeds);
      if !ok {
        tables := tables[..|tables| - 1];
        assert tables == old(tables);
        if tables == [] {
          next := 1;
        }
      }
    }

    /** One directory entry: skipped unless its name gives an id and it loads as a non-empty table. */
    method Examine(directory: bytes, name: bytes) returns (found: seq<Meta>)
      requires name in disk.files
      ensures |found| <= 1
      ensures if Skipped(directory, disk.files, name) then found == []
              else |found| == 1 && Describes(directory, disk.files, name, found[0])
      ensures forall i: nat :: name == TableName(directory, i) && Rebuildable(directory, disk.files)
                ==> found == Contribution(directory, disk.files, i)
    {
      hide ParseTable, TableName, MetaOf, IdOf, RangeSoFar;
      ghost var i: nat :| Rebuildable(directory, disk.files) ==> i < TWO_64 && name == TableName(directory, i);
      NameGivesId(directory, name, i);
      var id := IdOf(directory, name);
      if id.None? {
        return [];
      }
      var table := LoadTable(disk, name);
      if table.Rejected? || table.data == map[] {
        return [];
      }
      var smallest, largest := KeyRange(table.data);
      RangeIsWhole(table.data, smallest, largest);
      if IsRange(table.data.Keys, smallest, largest) {
        RangeIsMeta(id.value, name, table.data, smallest, largest);
      }
      return [Meta(id.value, name, smallest, largest, |table.data|)];
    }

    /** The loop over the directory, in whatever order it is listed. */
    method ScanDirectory(directory: bytes) returns (rebuilt: seq<Meta>, largest: nat)
      ensures DescribesAll(directory, disk.files, disk.files.Keys, rebuilt)
      ensures Rebuildable(directory, disk.files) ==> Collected(directory, disk.files, disk.files.Keys, rebuilt)
      ensures IsLargest(rebuilt, largest)
    {
      hide Collected, Rebuildable, Contribution, TableName, IsLargest, DescribesAll, Describes, Skipped;
      ghost var files := disk.files;
      rebuilt, largest := [], 0;
      var left := disk.files.Keys;
      NothingContributed(directory, files);
      NothingDescribed(directory, files);
      while left != {}
        invariant left <= files.Keys
        invariant DescribesAll(directory, files, files.Keys - left, rebuilt)
        invariant Rebuildable(directory, files) ==> Collected(directory, files, files.Keys - left, rebuilt)
        invariant IsLargest(rebuilt, largest)
        decreases |left|
      {
        var name :| name in left;
        var found := Examine(directory, name);
        assert files.Keys - (left - {name}) == files.Keys - left + {name};
        if Rebuildable(directory, files) {
          CollectOne(directory, files, files.Keys - left, rebuilt, name, found);
        }
        DescribeOne(directory, files, files.Keys - left, rebuilt, name, found);
        LargestGrows(rebuilt, largest, found);
        rebuilt := rebuilt + found;
        if |found| == 1 && found[0].id > largest {
          largest := found[0].id;
        }
        left := left - {name};
      }
      assert files.Keys - left == files.Keys;
    }

    /** The ids of a directory decide the new list, in id order, and the next id; then it is persisted. */
    method RebuildFromDirectory(directory: bytes, succeeds: bool) returns (ok: bool)
      modifies this, disk
      ensures ok == succeeds
      ensures DescribesAll(directory, old(disk.files), old(disk.files).Keys, tables) && NonDecreasing(tables)
      ensures next == NextAfter(tables)
      ensures old(Rebuildable(directory, disk.files)) ==>
                && tables == RebuiltAll(directory, old(disk.files))
                && (IdsOrdered(tables, next) <==> forall i :: 0 <= i < |tables| ==> tables[i].id + 1 < TWO_64)
      ensures ok ==> disk.Now() == WithManifest(old(disk.Now()), next, tables) && disk.trace == old(disk.trace) + [disk.Now()]
      ensures !ok ==> disk.Now() == old(disk.Now()) && disk.trace == old(disk.trace)
    {
      hide Collected, Rebuildable, Contribution, TableName, IsLargest, RebuiltAll, IncreasingIds, DistinctIds, IdsOrdered, NextAfter, NonDecreasing, DescribesAll;
      ghost var files := disk.files;
      var rebuilt, largest := ScanDirectory(directory);
      tables := SortById(rebuilt);
      next := (largest + 1) % TWO_64;
      if next == 0 {
        next := 1;
      }
      LargestIsLast(rebuilt, largest, tables);
      SameDescribed(directory, files, files.Keys, rebuilt, tables);
      if Rebuildable(directory, files) {
        CollectedAll(directory, files, rebuilt, tables);
        NextAfterOrders(tables);
      }
      ok := Persist(succeeds);
    }

    method RemoveTables(ids: set<nat>, succeeds: bool) returns (ok: bool)
      modifies this`tables, disk
      ensures ok == succeeds
      ensures ok ==> tables == Without(old(tables), ids)
                     && disk.Now() == WithManifest(old(disk.Now()), next, tables)
                     && disk.trace == old(disk.trace) + [disk.Now()]
      ensures !ok ==> tables == old(tables) && disk.Now() == old(disk.Now()) && disk.trace == old(disk.trace)
      ensures old(IdsOrdered(tables, next)) ==> IdsOrdered(tables, next)
    {
      var oldTables := tables;
      var kept: seq<Meta> := [];
      for i := 0 to |oldTables|
        invariant tables == oldTables
        invariant kept == Without(oldTables[..i], ids)
      {
        assert oldTables[..i + 1][..i] == oldTables[..i];
        if oldTables[i].id !in ids {
          kept := kept + [oldTables[i]];
        }
      }
      assert oldTables[..|oldTables|] == oldTables;
      tables := kept;
      if IdsOrdered(oldTables, next) {
        WithoutOrdered(oldTables, ids, next);
      }
      ok := Persist(succeeds);
      if !ok {
        tables := oldTables;
      }
    }
  }

  lemma {:induction false} WithoutMembers(tables: seq<Meta>, ids: set<nat>)
    ensures forall x :: x in Without(tables, ids) <==> x in tables && x.id !in ids
  {
    if tables != [] {
      var init, last := tables[..|tables| - 1], tables[|tables| - 1];
      WithoutMembers(init, ids);
      assert tables == init + [last];
    }
  }

  lemma {:induction false} WithoutOrdered(tables: seq<Meta>, ids: set<nat>, next: nat)
    requires IdsOrdered(tables, next)
    ensures IdsOrdered(Without(tables, ids), next)
  {
    if tables != [] {
      var init, last := tables[..|tables| - 1], tables[|tables| - 1];
      WithoutOrdered(init, ids, last.id);
      hide Without;
      var kept := Without(init, ids);
      KeptThenLast(kept, last, next);
      WithoutSplit(tables, ids);
    }
  }

  lemma KeptThenLast(kept: seq<Meta>, last: Meta, next: nat)
    requires IdsOrdered(kept, last.id) && last.id < next
    ensures IdsOrdered(kept, next) && IdsOrdered(kept + [last], next)
  {
  }

  lemma WithoutSplit(tables: seq<Meta>, ids: set<nat>)
    requires tables != []
    ensures var kept, last := Without(tables[..|tables| - 1], ids), tables[|tables| - 1];
            Without(tables, ids) == kept || Without(tables, ids) == kept + [last]
  {
    assert forall s: seq<Meta> :: s + [] == s;
  }
}
