/** memtable.cpp: the in-memory map and its running byte count. */
module MemTable {
  import opened Bytes
  import opened Entries

  /** What an entry adds to the count when it is recomputed. */
  function Cost(key: bytes, entry: Entry): nat
  {
    |key| + if entry.deleted then 0 else |entry.value|
  }

  ghost function TotalBytes(d: Data): nat
    decreases |d|
  {
    if d == map[] then 0
    else
      var k :| k in d;
      assert (d - {k}).Keys == d.Keys - {k};
      Cost(k, d[k]) + TotalBytes(d - {k})
  }

  /** Any entry may be taken off the sum, so the order of counting does not matter. */
  lemma {:induction false} TotalBytesSplit(d: Data, key: bytes)
    requires key in d
    ensures TotalBytes(d) == Cost(key, d[key]) + TotalBytes(d - {key})
    decreases |d|
  {
    var k :| k in d && TotalBytes(d) == Cost(k, d[k]) + TotalBytes(d - {k});
    if k != key {
      assert (d - {k}).Keys == d.Keys - {k};
      assert (d - {key}).Keys == d.Keys - {key};
      TotalBytesSplit(d - {k}, key);
      TotalBytesSplit(d - {key}, k);
      assert d - {k} - {key} == d - {key} - {k};
    }
  }

  /** The sum, one key at a time: a value counts with its key, a tombstone counts its key alone. */
  lemma TotalBytesIs(d: Data, key: bytes, value: bytes)
    ensures TotalBytes(map[]) == 0
    ensures TotalBytes(d[key := Entry(value, false)]) == TotalBytes(d - {key}) + |key| + |value|
    ensures TotalBytes(d[key := Entry(value, true)]) == TotalBytes(d - {key}) + |key|
  {
    TotalBytesUpdate(d, key, Entry(value, false));
    TotalBytesUpdate(d, key, Entry(value, true));
    hide TotalBytes;
    EmptyTotal();
  }

  predicate TombstonesEmpty(d: Data)
  {
    forall k :: k in d && d[k].deleted ==> d[k].value == []
  }

  lemma TotalBytesUpdate(d: Data, key: bytes, entry: Entry)
    ensures TotalBytes(d[key := entry]) == Cost(key, entry) + TotalBytes(d - {key})
  {
    TotalBytesSplit(d[key := entry], key);
    assert d[key := entry] - {key} == d - {key};
  }

  /** What put and erase take off the count is part of it: while the sum fits 64 bits, it cannot wrap. */
  lemma NoUnderflow(d: Data, key: bytes)
    ensures TombstonesEmpty(d) && key in d ==> |key| + |d[key].value| <= TotalBytes(d)
    ensures TotalBytes(d) < TWO_64 ==> Wrap(TotalBytes(d)) == TotalBytes(d)
  {
    if TombstonesEmpty(d) && key in d {
      TotalBytesSplit(d, key);
    }
  }

  /** size_t arithmetic */
  function Wrap(x: int): (r: nat)
    ensures r < TWO_64
  {
    x % TWO_64
  }

  lemma WrapAdd(x: int, y: int)
    ensures Wrap(Wrap(x) + y) == Wrap(x + y)
  {
    var q := x / TWO_64;
    assert x == TWO_64 * q + Wrap(x);
    assert x + y == TWO_64 * q + (Wrap(x) + y);
  }

  class MemTable {
    var data: Data
    var sizeInBytes: nat

    /** Tombstones hold empty values and the count is the sum over the entries, as a size_t. */
    ghost predicate Accounted()
      reads this
    {
      TombstonesEmpty(data) && sizeInBytes == Wrap(TotalBytes(data))
    }

    constructor ()
      ensures data == map[] && sizeInBytes == 0 && Accounted()
    {
      data, sizeInBytes := map[], 0;
    }

    method Put(key: bytes, value: bytes)
      modifies this
      ensures data == old(data)[key := Entry(value, false)]
      ensures old(Accounted()) ==> Accounted()
      ensures old(Accounted()) && TotalBytes(old(data)) < TWO_64 && key in old(data) ==>
                |key| + |old(data)[key].value| <= old(sizeInBytes)
    {
      NoUnderflow(data, key);
      hide Wrap, TotalBytes;
      TotalBytesUpdate(data, key, Entry(value, false));
      ghost var total := TotalBytes(data);
      if key in data {
        TotalBytesSplit(data, key);
        WrapAdd(total, -(|key| + |data[key].value|));
        WrapAdd(total - (|key| + |data[key].value|), |key| + |value|);
        sizeInBytes := Wrap(sizeInBytes - (|key| + |data[key].value|));
        data := data[key := Entry(value, false)];
        sizeInBytes := Wrap(sizeInBytes + (|key| + |data[key].value|));
      } else {
        assert data - {key} == data;
        WrapAdd(total, |key| + |value|);
        data := data[key := Entry(value, false)];
        sizeInBytes := Wrap(sizeInBytes + (|key| + |value|));
      }
    }

    method Erase(key: bytes)
      modifies this
      ensures data == old(data)[key := TOMBSTONE]
      ensures old(Accounted()) ==> Accounted()
      ensures old(Accounted()) && TotalBytes(old(data)) < TWO_64 && key in old(data) ==>
                |key| + |old(data)[key].value| <= old(sizeInBytes)
    {
      NoUnderflow(data, key);
      hide Wrap, TotalBytes;
      TotalBytesUpdate(data, key, TOMBSTONE);
      ghost var total := TotalBytes(data);
      if key in data {
        TotalBytesSplit(data, key);
        WrapAdd(total, -(|key| + |data[key].value|));
        WrapAdd(total - (|key| + |data[key].value|), |key|);
        sizeInBytes := Wrap(sizeInBytes - (|key| + |data[key].value|));
        data := data[key := TOMBSTONE];
        sizeInBytes := Wrap(sizeInBytes + |key|);
      } else {
        assert data - {key} == data;
        WrapAdd(total, |key|);
        data := data[key := TOMBSTONE];
        sizeInBytes := Wrap(sizeInBytes + |key|);
      }
    }

    method Get(key: bytes) returns (found: bool, value: bytes, deleted: bool)
      ensures found <==> key in data
      ensures found ==> deleted == data[key].deleted && value == if deleted then [] else data[key].value
    {
      if key !in data {
        return false, [], false;
      }
      deleted := data[key].deleted;
      if !deleted {
        value := data[key].value;
      } else {
        value := [];
      }
      found := true;
    }

    method Clear()
      modifies this
      ensures data == map[] && sizeInBytes == 0 && Accounted()
    {
      data := map[];
      sizeInBytes := 0;
    }

    /** The count is recomputed whatever the entries are; it is accounted for when tombstones are empty. */
    method Replace(entries: Data)
      modifies this
      ensures data == entries && sizeInBytes == Wrap(TotalBytes(entries))
      ensures TombstonesEmpty(entries) ==> Accounted()
    {
      data := entries;
      RecomputeSize();
    }

    method RecomputeSize()
      modifies this`sizeInBytes
      ensures sizeInBytes == Wrap(TotalBytes(data))
    {
      hide Wrap, TotalBytes, Cost;
      sizeInBytes := 0;
      var left := data;
      EmptyTotal();
      while left != map[]
        invariant forall k :: k in left ==> k in data && left[k] == data[k]
        invariant sizeInBytes == Wrap(TotalBytes(data) - TotalBytes(left))
        decreases |left|
      {
        var key :| key in left;
        var entry := left[key];
        TotalBytesSplit(left, key);
        CostIs(key, entry);
        assert (left - {key}).Keys == left.Keys - {key};
        ghost var counted := TotalBytes(data) - TotalBytes(left);
        ghost var cost := Cost(key, entry);
        assert counted + cost == TotalBytes(data) - TotalBytes(left - {key});
        WrapAdd(counted, |key|);
        sizeInBytes := Wrap(sizeInBytes + |key|);
        if !entry.deleted {
          WrapAdd(counted + |key|, |entry.value|);
          sizeInBytes := Wrap(sizeInBytes + |entry.value|);
        }
        assert sizeInBytes == Wrap(counted + cost);
        left := left - {key};
      }
    }
  }

  lemma EmptyTotal()
    ensures TotalBytes(map[]) == 0 && Wrap(0) == 0
  {
  }

  lemma CostIs(key: bytes, entry: Entry)
    ensures Cost(key, entry) == if entry.deleted then |key| else |key| + |entry.value|
  {
  }
}
