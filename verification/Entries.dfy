/** Entries, tombstones, and the key-to-value map a reader sees. */
module Entries {
  import opened Bytes

  /** A value, or a tombstone; tombstones made by the engine hold the empty value. */
  datatype Entry = Entry(value: bytes, deleted: bool)

  const TOMBSTONE := Entry([], true)

  type Data = map<bytes, Entry>

  /** What a reader sees: the keys whose newest entry is not a tombstone. */
  function Live(d: Data): map<bytes, bytes>
  {
    map k | k in d && !d[k].deleted :: d[k].value
  }

  /** The live entries alone, as compaction keeps them. */
  function DropTombstones(d: Data): Data
  {
    map k | k in d && !d[k].deleted :: d[k]
  }

  // In the lemmas below `x + y` overlays the newer map y on the older map x.

  /** A newer overlay sees only what is live in the older map. */
  lemma LiveOverlay(x: Data, y: Data, r: Data)
    requires Live(x) == Live(y)
    ensures Live(x + r) == Live(y + r)
  {
    forall k
      ensures k in Live(x + r) <==> k in Live(y + r)
      ensures k in Live(x + r) && k in Live(y + r) ==> Live(x + r)[k] == Live(y + r)[k]
    {
      if k !in r {
        assert k in Live(x) <==> k in Live(y);
        assert k in Live(x) ==> Live(x)[k] == Live(y)[k];
      }
    }
  }

  /** Dropping tombstones from the bottom of a stack changes nothing above it. */
  lemma DropTombstonesLive(d: Data)
    ensures Live(DropTombstones(d)) == Live(d)
  {
  }

  /** Stacking y over x shows a when each of them, under r, shows a. */
  lemma StackSame(x: Data, y: Data, r: Data, a: map<bytes, bytes>)
    requires Live(x + r) == a && Live(y + r) == a
    ensures Live(x + y + r) == a
  {
    forall k
      ensures k in Live(x + y + r) <==> k in a
      ensures k in Live(x + y + r) && k in a ==> Live(x + y + r)[k] == a[k]
    {
      if k !in r {
        assert k in Live(x + r) <==> k in Live(x);
        assert k in Live(y + r) <==> k in Live(y);
        if k in Live(x) { assert Live(x + r)[k] == Live(x)[k]; }
        if k in Live(y) { assert Live(y + r)[k] == Live(y)[k]; }
      }
    }
  }

  /** Replaying what a newer table already contains changes nothing. */
  lemma ReplayContained(x: Data, d: Data, r: Data)
    requires Contains(d, r)
    ensures x + d + r == x + d
  {
  }

  /** Every entry of r is also in d. */
  ghost predicate Contains(d: Data, r: Data)
  {
    forall k :: k in r ==> k in d && d[k] == r[k]
  }
}
