/** Appending behind a torn tail: some record is always lost. */
module TornTails {
  import opened Bytes
  import opened Text
  import opened Entries
  import opened Crc32
  import opened Serialization
  import opened WalRecord
  import opened Recovery

  // ---------------------------------------------------------------------------
  // At most one of two records completes a torn one
  // ---------------------------------------------------------------------------

  /** A body long enough for payload and checksum is damaged unless they agree. */
  lemma AcceptedAgrees(length: nat, body: bytes)
    requires 0 < length <= MAX_RECORD_SIZE && |body| >= length + 4 && !ReadBody(length, body).Damaged?
    ensures U32(body[length..]) == Checksum(body[..length])
  {
    hide Checksum, Decode, U32;
  }

  /** Two continuations of one payload that differ in their first byte only. */
  lemma NotBothPayloads(head: bytes, x: bytes, y: bytes, length: nat)
    requires |head| < length && |x| >= length + 4 - |head| && |y| >= length + 4 - |head|
    requires x[0] != y[0] && x[1..length + 4 - |head|] == y[1..length + 4 - |head|]
    ensures !(U32((head + x)[length..]) == Checksum((head + x)[..length])
              && U32((head + y)[length..]) == Checksum((head + y)[..length]))
  {
    hide Checksum, U32;
    var k := length - |head|;
    var p, q := (head + x)[..length], (head + y)[..length];
    assert (head + x)[length..][..4] == x[k..k + 4] && (head + y)[length..][..4] == y[k..k + 4];
    assert x[k..k + 4] == x[1..k + 4][k - 1..] && y[k..k + 4] == y[1..k + 4][k - 1..];
    SameU32((head + x)[length..], (head + y)[length..]);
    assert p[|head|] == x[0] && q[|head|] == y[0];
    assert p[..|head|] == head && q[..|head|] == head;
    assert p[|head| + 1..] == x[1..k] && q[|head| + 1..] == y[1..k];
    assert x[1..k] == x[1..k + 4][..k - 1] && y[1..k] == y[1..k + 4][..k - 1];
    BurstDamageChangesChecksum(p, q, |head|, 1);
  }

  lemma SameU32(s: bytes, t: bytes)
    requires |s| >= 4 && |t| >= 4
    ensures U32(s) == U32(t) <==> s[..4] == t[..4]
  {
    Le32OfU32(s);
    Le32OfU32(t);
    hide Le32;
    if s[..4] == t[..4] {
      hide FromLe;
    }
  }

  /** Two continuations of one checksum. */
  lemma NotBothChecksums(head: bytes, x: bytes, y: bytes, length: nat)
    requires length <= |head| < length + 4 && |x| >= length + 4 - |head| && |y| >= length + 4 - |head|
    requires x[0] != y[0]
    ensures !(U32((head + x)[length..]) == Checksum((head + x)[..length])
              && U32((head + y)[length..]) == Checksum((head + y)[..length]))
  {
    hide Checksum, U32;
    assert (head + x)[..length] == (head + y)[..length];
    var k := |head| - length;
    assert (head + x)[length..][..4][k] == x[0] && (head + y)[length..][..4][k] == y[0];
    SameU32((head + x)[length..], (head + y)[length..]);
  }

  /**
   * Behind a record torn after its length, of two records that are long enough to fill the hole and differ
   * there in the first byte only, one at least is lost: the filled hole is refused.
   */
  lemma OneOfTwoIsRefused(torn: Record, j: nat, r: Record, s: Record)
    requires Loggable(torn) && 4 <= j < |RecordBytes(torn)|
    requires var hole := |RecordBytes(torn)| - j;
             && hole <= |RecordBytes(r)| && hole <= |RecordBytes(s)|
             && RecordBytes(r)[0] != RecordBytes(s)[0] && RecordBytes(r)[1..hole] == RecordBytes(s)[1..hole]
    ensures ReadRecord(RecordBytes(torn)[..j] + RecordBytes(r)).Damaged?
            || ReadRecord(RecordBytes(torn)[..j] + RecordBytes(s)).Damaged?
  {
    hide *;
    var head := TornParts(torn, j);
    var n, x, y := |Payload(torn)|, RecordBytes(r), RecordBytes(s);
    PayloadBounds(torn);
    ReadFilled(torn, j, head, x);
    ReadFilled(torn, j, head, y);
    if !ReadBody(n, head + x).Damaged? && !ReadBody(n, head + y).Damaged? {
      AcceptedAgrees(n, head + x);
      AcceptedAgrees(n, head + y);
      if |head| < n {
        NotBothPayloads(head, x, y, n);
      } else {
        NotBothChecksums(head, x, y, n);
      }
    }
  }

  lemma PayloadBounds(r: Record)
    requires Loggable(r)
    ensures 0 < |Payload(r)| <= MAX_RECORD_SIZE && |RecordBytes(r)| == |Payload(r)| + 8 && MAX_RECORD_SIZE < TWO_32
  {
    hide Checksum;
  }

  /** What a record torn behind its length leaves: the length, and a head of payload and checksum. */
  lemma TornParts(torn: Record, j: nat) returns (head: bytes)
    requires Loggable(torn) && 4 <= j < |RecordBytes(torn)|
    ensures |head| == j - 4
    ensures RecordBytes(torn)[..j] == Le32(|Payload(torn)|) + head
  {
    hide Checksum, Le32;
    var body := Payload(torn) + Le32(Checksum(Payload(torn)));
    head := body[..j - 4];
    assert RecordBytes(torn) == Le32(|Payload(torn)|) + body;
  }

  lemma ReadFilled(torn: Record, j: nat, head: bytes, x: bytes)
    requires |Payload(torn)| < TWO_32 && j <= |RecordBytes(torn)|
    requires RecordBytes(torn)[..j] == Le32(|Payload(torn)|) + head
    ensures ReadRecord(RecordBytes(torn)[..j] + x) == ReadBody(|Payload(torn)|, head + x)
  {
    hide *;
    assert Le32(|Payload(torn)|) + head + x == Le32(|Payload(torn)|) + (head + x);
    ReadBehindLength(|Payload(torn)|, head + x);
  }

  // ---------------------------------------------------------------------------
  // The records
  // ---------------------------------------------------------------------------

  const SHORT_KEY: bytes := [97]

  /** A key of sixteen bytes, so that the records of its short values agree far beyond any hole left to fill. */
  const LONG_KEY: bytes := [97, 97, 97, 97, 97, 97, 97, 97, 97, 97, 97, 97, 97, 97, 97, 97]

  function LongPut(value: bytes): Record
  {
    Record(Put, LONG_KEY, value)
  }

  lemma LongPutBytes(value: bytes)
    requires |value| <= 3
    ensures var s := RecordBytes(LongPut(value));
            && |s| >= 25 && s[0] == 25 + |value|
            && s[1..25] == [0, 0, 0] + ([TypeByte(Put)] + Le32(16) + LONG_KEY)
  {
    hide Checksum, Le32;
    Le32Short(25 + |value|);
    var rest := Sized(value) + Le32(Checksum(Payload(LongPut(value))));
    var mid := [TypeByte(Put)] + Le32(16) + LONG_KEY;
    assert Payload(LongPut(value)) == mid + Sized(value);
    assert RecordBytes(LongPut(value)) == [25 + |value|] + [0, 0, 0] + mid + rest;
  }

  /** A record of a parsed PUT within the reader's bound that would change the map a. */
  predicate Telling(a: map<bytes, bytes>, r: Record)
  {
    Loggable(r) && r.kind.Put? && IsToken(r.key) && r.value != [] && (r.key in a ==> a[r.key] != r.value)
  }

  lemma TellingOne(a: map<bytes, bytes>, key: bytes, value: bytes)
    requires key == SHORT_KEY || key == LONG_KEY
    requires 1 <= |value| <= 3 && (key in a ==> a[key] != value)
    ensures Telling(a, Record(Put, key, value))
  {
  }

  lemma ShortPut(a: map<bytes, bytes>) returns (r: Record)
    ensures Telling(a, r) && |Payload(r)| == 11 && |RecordBytes(r)| == 19
  {
    hide Checksum;
    var value: bytes := if SHORT_KEY in a && a[SHORT_KEY] == [97] then [98] else [97];
    TellingOne(a, SHORT_KEY, value);
    r := Record(Put, SHORT_KEY, value);
  }

  /** Of three records that fill the hole at least two are refused, and one of those would have changed the map. */
  lemma RefusedFilling(a: map<bytes, bytes>, torn: Record, j: nat) returns (r: Record)
    requires Loggable(torn) && 4 <= j < |RecordBytes(torn)| && |RecordBytes(torn)| - j <= 25
    ensures Telling(a, r) && ReadRecord(RecordBytes(torn)[..j] + RecordBytes(r)).Damaged?
  {
    hide *;
    var v1: bytes, v2: bytes, v3: bytes := [97], [97, 97], [97, 97, 97];
    var t := RecordBytes(torn)[..j];
    FillersRefused(torn, j, v1, v2);
    FillersRefused(torn, j, v1, v3);
    FillersRefused(torn, j, v2, v3);
    var x, y := v1, v2;
    if !ReadRecord(t + RecordBytes(LongPut(v1))).Damaged? {
      x, y := v2, v3;
    } else if !ReadRecord(t + RecordBytes(LongPut(v2))).Damaged? {
      y := v3;
    }
    var value := if LONG_KEY in a && a[LONG_KEY] == x then y else x;
    TellingOne(a, LONG_KEY, value);
    LongPutIs(value);
    return LongPut(value);
  }

  lemma LongPutIs(value: bytes)
    ensures LongPut(value) == Record(Put, LONG_KEY, value)
  {
  }

  lemma ShorterSlice(s: bytes, k: nat, n: nat)
    requires 1 <= k <= n <= |s|
    ensures s[1..k] == s[1..n][..k - 1]
  {
  }

  lemma FillersRefused(torn: Record, j: nat, v: bytes, w: bytes)
    requires Loggable(torn) && 4 <= j < |RecordBytes(torn)| && |RecordBytes(torn)| - j <= 25
    requires |v| <= 3 && |w| <= 3 && |v| != |w|
    ensures ReadRecord(RecordBytes(torn)[..j] + RecordBytes(LongPut(v))).Damaged?
            || ReadRecord(RecordBytes(torn)[..j] + RecordBytes(LongPut(w))).Damaged?
  {
    hide *;
    LongPutBytes(v);
    LongPutBytes(w);
    var hole := |RecordBytes(torn)| - j;
    var x, y := RecordBytes(LongPut(v)), RecordBytes(LongPut(w));
    ShorterSlice(x, hole, 25);
    ShorterSlice(y, hole, 25);
    OneOfTwoIsRefused(torn, j, LongPut(v), LongPut(w));
  }

  // ---------------------------------------------------------------------------
  // The border
  // ---------------------------------------------------------------------------

  lemma DamagedIsLost(rs: seq<Record>, tail: bytes)
    requires AllLoggable(rs) && ReadRecord(tail).Damaged?
    ensures RecoverWal(LogBytes(rs) + tail).data == Replay(rs)
  {
    hide ReadRecord, RecoverWal;
    ScanLog(rs, tail);
  }

  /** Behind every torn tail there is a parsed PUT that changes the map and is lost at the next start. */
  lemma SomeAppendIsLost(rs: seq<Record>, torn: Record, j: nat, a: map<bytes, bytes>) returns (r: Record)
    requires AllLoggable(rs) && Loggable(torn) && 0 < j < |RecordBytes(torn)|
    ensures Telling(a, r)
    ensures RecoverWal(LogBytes(rs) + RecordBytes(torn)[..j] + RecordBytes(r)).data == Replay(rs)
  {
    hide *;
    if j <= 3 {
      r := ShortPut(a);
      AppendBehindShortTailIsLost(rs, torn, j, r);
    } else if |RecordBytes(torn)| - j > 19 {
      r := ShortPut(a);
      AppendBehindLongTailIsLost(rs, torn, j, r);
    } else {
      r := RefusedFilling(a, torn, j);
      var t := RecordBytes(torn)[..j];
      DamagedIsLost(rs, t + RecordBytes(r));
      assert LogBytes(rs) + (t + RecordBytes(r)) == LogBytes(rs) + t + RecordBytes(r);
    }
  }

  lemma TellingChanges(d: Data, r: Record)
    requires Telling(Live(d), r)
    ensures Apply(d, r) != d && Loggable(r)
  {
    assert Apply(d, r)[r.key] == Entry(r.value, false);
  }

  lemma AppendedLog(rs: seq<Record>, r: Record)
    requires AllLoggable(rs) && Loggable(r)
    ensures RecoverWal(LogBytes(rs) + RecordBytes(r)).data == Apply(Replay(rs), r)
  {
    hide RecoverWal, RecordBytes, Loggable;
    assert (rs + [r])[..|rs + [r]| - 1] == rs;
    WholeLog(rs + [r]);
  }

  lemma TornTailIs(t: bytes) returns (torn: Record, j: nat)
    requires TornTail(t) && t != []
    ensures Loggable(torn) && 0 < j < |RecordBytes(torn)| && t == RecordBytes(torn)[..j]
  {
    hide RecordBytes, Loggable;
    torn, j :| Loggable(torn) && j < |RecordBytes(torn)| && t == RecordBytes(torn)[..j];
  }

  /** Behind what a crash can leave of an append, every record that follows is recovered if and only if that is nothing. */
  lemma AppendsRecoverIffClean(rs: seq<Record>, t: bytes)
    requires AllLoggable(rs) && TornTail(t)
    ensures (forall r :: Loggable(r) ==> RecoverWal(LogBytes(rs) + t + RecordBytes(r)).data == Apply(Replay(rs), r))
            <==> t == []
  {
    hide *;
    if t == [] {
      assert LogBytes(rs) + t == LogBytes(rs);
      forall r | Loggable(r)
        ensures RecoverWal(LogBytes(rs) + t + RecordBytes(r)).data == Apply(Replay(rs), r)
      {
        AppendedLog(rs, r);
      }
    } else {
      var torn, j := TornTailIs(t);
      var r := SomeAppendIsLost(rs, torn, j, Live(Replay(rs)));
      TellingChanges(Replay(rs), r);
    }
  }
}
