/** recovery.cpp: scanning a log that may be cut short or damaged. */
module Recovery {
  import opened Bytes
  import opened Entries
  import opened Crc32
  import opened BurstErrors
  import opened Serialization
  import opened WalRecord

  const MAX_RECORD_SIZE: nat := 16 * 1024 * 1024

  datatype ReadStatus = Success(record: Record, rest: bytes) | EofReached | Incomplete | Damaged

  datatype RecoveryStatus = Complete | IncompleteTail | Corrupted

  /** The outcome of a scan: what was replayed, and the bytes from the first record not replayed. */
  datatype Outcome = Outcome(status: RecoveryStatus, data: Data, rest: bytes)

  /** The rest of a record whose length has been read. */
  function ReadBody(length: nat, body: bytes): (r: ReadStatus)
    ensures r.Success? ==> |r.rest| < |body|
  {
    if length == 0 || length > MAX_RECORD_SIZE then Damaged
    else if |body| < length then Incomplete
    else if |body| - length < 4 then Incomplete
    else
      var payload, after := body[..length], body[length..];
      if U32(after) != Checksum(payload) then Damaged
      else match Decode(payload)
           case None => Damaged
           case Some(record) => Success(record, after[4..])
  }

  /** One record from the front of the remaining file; fewer than four bytes read as end of file. */
  function ReadRecord(file: bytes): (r: ReadStatus)
    ensures r.Success? ==> |r.rest| < |file|
  {
    if |file| < 4 then EofReached else ReadBody(U32(file), file[4..])
  }

  lemma ReadBehindLength(length: nat, body: bytes)
    requires length < TWO_32
    ensures ReadRecord(Le32(length) + body) == ReadBody(length, body)
  {
    hide Le32, U32, ReadBody;
    U32OfLe32(length, body);
  }

  function Scan(file: bytes, data: Data): Outcome
    decreases |file|
  {
    match ReadRecord(file)
    case Success(record, rest) => Scan(rest, Apply(data, record))
    case EofReached => Outcome(Complete, data, file)
    case Incomplete => Outcome(IncompleteTail, data, file)
    case Damaged => Outcome(Corrupted, data, file)
  }

  function RecoverWal(file: bytes): Outcome
  {
    Scan(file, map[])
  }

  // ---------------------------------------------------------------------------
  // The code
  // ---------------------------------------------------------------------------

  method ReadRecordAt(file: bytes, position: nat) returns (status: ReadStatus, next: nat)
    requires position <= |file|
    ensures status == ReadRecord(file[position..])
    ensures status.Success? ==> position < next <= |file| && status.rest == file[next..]
  {
    hide Checksum, Decode, U32;
    next := position;
    var ok, length, afterLength := ReadUint32(file, position);
    if !ok {
      return EofReached, next;
    }
    assert file[position..][4..] == file[afterLength..];
    if length == 0 || length > MAX_RECORD_SIZE {
      return Damaged, next;
    }
    if |file| - afterLength < length {
      return Incomplete, next;
    }
    var payload := file[afterLength..afterLength + length];
    assert payload == file[afterLength..][..length];
    assert file[afterLength..][length..] == file[afterLength + length..];
    var stored, afterChecksum;
    ok, stored, afterChecksum := ReadUint32(file, afterLength + length);
    if !ok {
      return Incomplete, next;
    }
    assert file[afterLength + length..][4..] == file[afterChecksum..];
    var calculated := CalculateCrc32(payload);
    if stored != calculated {
      return Damaged, next;
    }
    var record := DeserializeWalRecord(payload);
    if record.None? {
      return Damaged, next;
    }
    return Success(record.value, file[afterChecksum..]), afterChecksum;
  }

  method Recover(file: bytes) returns (status: RecoveryStatus, data: Data)
    ensures status == RecoverWal(file).status
    ensures data == RecoverWal(file).data
  {
    data := map[];
    var position := 0;
    assert file[0..] == file;
    while true
      invariant position <= |file|
      invariant RecoverWal(file) == Scan(file[position..], data)
      decreases |file| - position
    {
      var read, next := ReadRecordAt(file, position);
      match read {
        case Success(record, rest) =>
          match record.kind {
            case Put => data := data[record.key := Entry(record.value, false)];
            case Delete => data := data[record.key := TOMBSTONE];
          }
          position := next;
        case EofReached => return Complete, data;
        case Incomplete => return IncompleteTail, data;
        case Damaged => return Corrupted, data;
      }
    }
  }

  // ---------------------------------------------------------------------------
  // What a whole or torn log recovers to
  // ---------------------------------------------------------------------------

  /** A record the writer can log and the scan accepts back. */
  predicate Loggable(r: Record)
  {
    WellFormed(r) && |Payload(r)| <= MAX_RECORD_SIZE
  }

  /** What a crash can leave of the last append. */
  ghost predicate TornTail(t: bytes)
  {
    t == [] || exists r: Record, j: nat :: Loggable(r) && j < |RecordBytes(r)| && t == RecordBytes(r)[..j]
  }

  predicate AllLoggable(rs: seq<Record>)
  {
    forall i :: 0 <= i < |rs| ==> Loggable(rs[i])
  }

  lemma ReadBodyWhole(payload: bytes, crc: nat, rest: bytes)
    requires 0 < |payload| <= MAX_RECORD_SIZE && crc < TWO_32
    ensures ReadBody(|payload|, payload + (Le32(crc) + rest)) ==
            if crc == Checksum(payload) && Decode(payload).Some? then Success(Decode(payload).value, rest) else Damaged
  {
    hide Checksum, Decode, Le32, U32;
    var body := payload + (Le32(crc) + rest);
    U32OfLe32(crc, rest);
    assert body[..|payload|] == payload && body[|payload|..] == Le32(crc) + rest;
  }

  lemma ReadFrame(payload: bytes, rest: bytes)
    requires 0 < |payload| <= MAX_RECORD_SIZE
    ensures ReadRecord(Frame(payload) + rest) ==
            if Decode(payload).Some? then Success(Decode(payload).value, rest) else Damaged
  {
    hide Checksum, Decode, Le32, ReadRecord, ReadBody;
    var body := payload + (Le32(Checksum(payload)) + rest);
    assert Frame(payload) + rest == Le32(|payload|) + body;
    ReadBehindLength(|payload|, body);
    ReadBodyWhole(payload, Checksum(payload), rest);
  }

  lemma ReadWhole(r: Record, rest: bytes)
    requires Loggable(r)
    ensures ReadRecord(RecordBytes(r) + rest) == Success(r, rest)
  {
    hide Decode;
    DecodeOfPayload(r);
    ReadFrame(Payload(r), rest);
  }

  /** Every whole record of the log is replayed before the scan reaches what follows the log. */
  lemma {:induction false} ScanLog(rs: seq<Record>, tail: bytes)
    requires AllLoggable(rs)
    ensures RecoverWal(LogBytes(rs) + tail) == Scan(tail, Replay(rs))
  {
    if rs == [] {
      assert LogBytes(rs) + tail == tail;
    } else {
      hide ReadRecord, RecordBytes;
      var init, r := rs[..|rs| - 1], rs[|rs| - 1];
      assert LogBytes(rs) + tail == LogBytes(init) + (RecordBytes(r) + tail);
      ScanLog(init, RecordBytes(r) + tail);
      ReadWhole(r, tail);
    }
  }

  lemma ReadBodyShort(length: nat, body: bytes)
    requires 0 < length <= MAX_RECORD_SIZE && |body| < length + 4
    ensures ReadBody(length, body) == Incomplete
  {
    hide Checksum, Decode, U32;
  }

  /** A proper prefix of a record reads as end of file below four bytes and as incomplete above. */
  lemma ReadTorn(r: Record, j: nat)
    requires Loggable(r) && j < |RecordBytes(r)|
    ensures ReadRecord(RecordBytes(r)[..j]) == if j < 4 then EofReached else Incomplete
  {
    hide Checksum, Le32, ReadBody, U32;
    if j >= 4 {
      var n := |Payload(r)|;
      var body := Payload(r) + Le32(Checksum(Payload(r)));
      assert RecordBytes(r) == Le32(n) + body;
      assert RecordBytes(r)[..j] == Le32(n) + body[..j - 4];
      hide Payload;
      ReadBehindLength(n, body[..j - 4]);
      ReadBodyShort(n, body[..j - 4]);
    }
  }

  /** A log with its last append torn at byte j: all earlier records are replayed, and never Corrupted. */
  lemma TornAppend(rs: seq<Record>, r: Record, j: nat)
    requires AllLoggable(rs) && Loggable(r) && j < |RecordBytes(r)|
    ensures RecoverWal(LogBytes(rs) + RecordBytes(r)[..j])
         == Outcome(if j < 4 then Complete else IncompleteTail, Replay(rs), RecordBytes(r)[..j])
  {
    ScanLog(rs, RecordBytes(r)[..j]);
    ReadTorn(r, j);
  }

  lemma WholeLog(rs: seq<Record>)
    requires AllLoggable(rs)
    ensures RecoverWal(LogBytes(rs)) == Outcome(Complete, Replay(rs), [])
  {
    ScanLog(rs, []);
    assert LogBytes(rs) + [] == LogBytes(rs);
  }

  lemma {:induction false} LogPrefix(rs: seq<Record>, n: nat) returns (k: nat)
    requires n <= |LogBytes(rs)|
    ensures k <= |rs| && |LogBytes(rs[..k])| <= n
    ensures k == |rs| ==> n == |LogBytes(rs)|
    ensures k < |rs| ==> n < |LogBytes(rs[..k + 1])|
    ensures LogBytes(rs[..k]) <= LogBytes(rs)
    ensures k < |rs| ==> LogBytes(rs[..k]) + RecordBytes(rs[k]) <= LogBytes(rs)
  {
    hide RecordBytes;
    if n == |LogBytes(rs)| {
      assert rs[..|rs|] == rs;
      return |rs|;
    }
    var last := |rs| - 1;
    var init := rs[..last];
    if n >= |LogBytes(init)| {
      assert rs[..last + 1] == rs;
      return last;
    }
    k := LogPrefix(init, n);
    assert init[..k] == rs[..k];
    if k < |init| {
      assert init[..k + 1] == rs[..k + 1];
    }
  }

  /**
   * A log cut at any byte: with k the number of records that fit whole in the first n bytes, recovery
   * replays exactly those k, and reports success when 0 to 3 further bytes remain.
   */
  lemma TornLog(rs: seq<Record>, n: nat) returns (k: nat)
    requires AllLoggable(rs) && n <= |LogBytes(rs)|
    ensures k <= |rs| && |LogBytes(rs[..k])| <= n
    ensures k < |rs| ==> n < |LogBytes(rs[..k + 1])|
    ensures RecoverWal(LogBytes(rs)[..n]).data == Replay(rs[..k])
    ensures RecoverWal(LogBytes(rs)[..n]).status
         == if n - |LogBytes(rs[..k])| < 4 then Complete else IncompleteTail
  {
    hide *;
    k := LogPrefix(rs, n);
    if k == |rs| {
      assert rs[..k] == rs && LogBytes(rs)[..n] == LogBytes(rs);
      WholeLog(rs);
    } else {
      var head, r := LogBytes(rs[..k]), rs[k];
      LogOneMore(rs, k);
      PrefixOfPrefix(head, RecordBytes(r), LogBytes(rs), n);
      SomeLoggable(rs, k);
      TornAppend(rs[..k], r, n - |head|);
    }
  }

  lemma LogOneMore(rs: seq<Record>, k: nat)
    requires k < |rs|
    ensures LogBytes(rs[..k + 1]) == LogBytes(rs[..k]) + RecordBytes(rs[k])
  {
    hide RecordBytes;
    assert rs[..k + 1][..k] == rs[..k];
  }

  lemma SomeLoggable(rs: seq<Record>, k: nat)
    requires AllLoggable(rs) && k < |rs|
    ensures AllLoggable(rs[..k]) && Loggable(rs[k])
  {
    hide Loggable;
  }

  lemma PrefixOfPrefix(head: bytes, next: bytes, all: bytes, n: nat)
    requires head + next <= all && |head| <= n <= |head| + |next|
    ensures all[..n] == head + next[..n - |head|]
  {
    assert all[..n] == (head + next)[..n];
  }

  // ---------------------------------------------------------------------------
  // When recovery does not give back what was acknowledged
  // ---------------------------------------------------------------------------

  lemma U32Bytes(s: bytes)
    requires |s| >= 4
    ensures U32(s) == s[0] as int + 256 * s[1] as int + 65536 * s[2] as int + 16777216 * s[3] as int
  {
    var w := s[..4];
    assert FromLe(w[3..]) == w[3] by { assert w[3..][1..] == []; }
    assert w[2..][1..] == w[3..] && w[1..][1..] == w[2..];
    assert FromLe(w[2..]) == w[2] + 256 * FromLe(w[3..]);
    assert FromLe(w[1..]) == w[1] + 256 * FromLe(w[2..]);
  }

  lemma Le32Short(n: nat)
    requires n < 256
    ensures Le32(n) == [n, 0, 0, 0]
  {
    assert Le(0, 3) == [0] + Le(0, 2) && Le(0, 2) == [0] + Le(0, 1);
    assert Le(n, 4) == [n] + Le(0, 3);
  }

  /**
   * A torn tail is accepted but stays in the file. When the tail is one to three bytes long, the next
   * short record appended behind it is lost, although it was acknowledged; behind three bytes the
   * whole log is refused at the next start.
   */
  lemma AppendBehindShortTailIsLost(rs: seq<Record>, torn: Record, j: nat, r: Record)
    requires AllLoggable(rs) && 1 <= j <= 3 && |Payload(r)| < 256
    ensures j <= |RecordBytes(torn)|
    ensures var outcome := RecoverWal(LogBytes(rs) + RecordBytes(torn)[..j] + RecordBytes(r));
            && outcome.data == Replay(rs)
            && outcome.status == if j == 3 then Corrupted else IncompleteTail
  {
    hide RecoverWal, ReadRecord, RecordBytes;
    RecordIsLong(torn);
    var file := RecordBytes(torn)[..j] + RecordBytes(r);
    assert LogBytes(rs) + RecordBytes(torn)[..j] + RecordBytes(r) == LogBytes(rs) + file;
    ScanLog(rs, file);
    ReadBehindShortTail(RecordBytes(torn)[..j], r);
  }

  lemma RecordIsLong(r: Record)
    ensures |RecordBytes(r)| >= 17
  {
    hide Checksum;
  }

  /** One to three stray bytes shift a short record's length out of place. */
  lemma ReadBehindShortTail(t: bytes, r: Record)
    requires 1 <= |t| <= 3 && |Payload(r)| < 256
    ensures ReadRecord(t + RecordBytes(r)) == if |t| == 3 then Damaged else Incomplete
  {
    hide Checksum, Decode, U32;
    var n := |Payload(r)|;
    var file := t + RecordBytes(r);
    Le32Short(n);
    U32Bytes(file);
    assert file == t + ([n, 0, 0, 0] + (Payload(r) + Le32(Checksum(Payload(r)))));
    assert |file| == |t| + n + 8;
    if |t| == 1 {
      assert file[1] == n && file[2] == 0 && file[3] == 0;
    } else if |t| == 2 {
      assert file[2] == n && file[3] == 0;
    } else {
      assert file[3] == n;
    }
  }

  lemma ReadTornThen(torn: Record, j: nat, extra: bytes)
    requires Loggable(torn) && 4 <= j && j + |extra| < |RecordBytes(torn)|
    ensures ReadRecord(RecordBytes(torn)[..j] + extra) == Incomplete
  {
    hide Checksum, ReadRecord, ReadBody, Le32;
    var n := |Payload(torn)|;
    var body := Payload(torn) + Le32(Checksum(Payload(torn)));
    assert RecordBytes(torn) == Le32(n) + body;
    assert (Le32(n) + body)[..j] == Le32(n) + body[..j - 4];
    assert Le32(n) + body[..j - 4] + extra == Le32(n) + (body[..j - 4] + extra);
    hide Payload;
    ReadBehindLength(n, body[..j - 4] + extra);
    ReadBodyShort(n, body[..j - 4] + extra);
  }

  /** Behind a longer tail the next record is lost whenever it is too short to fill the hole. */
  lemma AppendBehindLongTailIsLost(rs: seq<Record>, torn: Record, j: nat, r: Record)
    requires AllLoggable(rs) && Loggable(torn)
    requires 4 <= j && j + |RecordBytes(r)| < |RecordBytes(torn)|
    ensures var outcome := RecoverWal(LogBytes(rs) + RecordBytes(torn)[..j] + RecordBytes(r));
            outcome.data == Replay(rs) && outcome.status == IncompleteTail
  {
    hide RecordBytes, ReadRecord, RecoverWal;
    var file := RecordBytes(torn)[..j] + RecordBytes(r);
    assert LogBytes(rs) + RecordBytes(torn)[..j] + RecordBytes(r) == LogBytes(rs) + file;
    ScanLog(rs, file);
    ReadTornThen(torn, j, RecordBytes(r));
  }

  lemma ReadOversized(r: Record)
    requires MAX_RECORD_SIZE < |Payload(r)| < TWO_32
    ensures ReadRecord(RecordBytes(r)) == Damaged
  {
    hide Checksum, Decode, Le32, ReadRecord, U32;
    var p := Payload(r);
    var body := p + Le32(Checksum(p));
    assert RecordBytes(r) == Le32(|p|) + body;
    ReadBehindLength(|p|, body);
  }

  /**
   * The writer has no size bound and the reader has one: a log that ends in a record whose payload is
   * below 4 GiB is accepted if and only if that payload is within the reader's bound.
   */
  lemma RecoversExactlyBoundedRecords(rs: seq<Record>, r: Record)
    requires AllLoggable(rs) && (r.kind.Delete? ==> r.value == []) && |Payload(r)| < TWO_32
    ensures var outcome := RecoverWal(LogBytes(rs) + RecordBytes(r));
            if 9 + |r.key| + |r.value| <= 16777216
            then outcome == Outcome(Complete, Replay(rs + [r]), [])
            else outcome.status == Corrupted && outcome.data == Replay(rs)
  {
    hide RecordBytes, ReadRecord, RecoverWal;
    if 9 + |r.key| + |r.value| <= MAX_RECORD_SIZE {
      assert Loggable(r);
      assert (rs + [r])[..|rs + [r]| - 1] == rs;
      WholeLog(rs + [r]);
    } else {
      ReadOversized(r);
      ScanLog(rs, RecordBytes(r));
    }
  }

  /** A length of zero, a length over 16 MiB and a payload that no record is written as stop the scan as damage. */
  lemma UnreadableRecordStopsRecovery(rs: seq<Record>, length: nat, payload: bytes, tail: bytes)
    requires AllLoggable(rs) && length < TWO_32
    ensures length == 0 || length > 16777216 ==>
              var outcome := RecoverWal(LogBytes(rs) + Le32(length) + tail);
              outcome.status == Corrupted && outcome.data == Replay(rs)
    ensures 0 < |payload| <= 16777216 && (forall r :: WellFormed(r) ==> Payload(r) != payload) ==>
              var outcome := RecoverWal(LogBytes(rs) + Frame(payload) + tail);
              outcome.status == Corrupted && outcome.data == Replay(rs)
  {
    hide RecoverWal, ReadRecord, Le32, Decode, Checksum, U32, Payload, WellFormed;
    if length == 0 || length > 16777216 {
      ReadBehindLength(length, tail);
      assert LogBytes(rs) + Le32(length) + tail == LogBytes(rs) + (Le32(length) + tail);
      ScanLog(rs, Le32(length) + tail);
    }
    if 0 < |payload| <= 16777216 && forall r :: WellFormed(r) ==> Payload(r) != payload {
      if Decode(payload).Some? {
        PayloadOfDecode(payload);
      }
      ReadFrame(payload, tail);
      assert LogBytes(rs) + Frame(payload) + tail == LogBytes(rs) + (Frame(payload) + tail);
      ScanLog(rs, Frame(payload) + tail);
    }
  }

  /** A payload damaged within four consecutive bytes, its length and checksum intact. */
  predicate BurstDamage(p: bytes, q: bytes, at: nat, width: nat)
  {
    && |p| == |q| && p != q
    && width <= 4 && at + width <= |p|
    && p[..at] == q[..at] && p[at + width..] == q[at + width..]
  }

  lemma BurstDamageChangesChecksum(p: bytes, q: bytes, at: nat, width: nat)
    requires BurstDamage(p, q, at, width)
    ensures Checksum(p) != Checksum(q)
  {
    hide Checksum;
    var a, b := p[at..at + width], q[at..at + width];
    assert p == p[..at] + a + p[at + width..] && q == p[..at] + b + p[at + width..];
    BurstChangesChecksum(p[..at], a, b, p[at + width..]);
  }

  lemma ReadDamaged(q: bytes, crc: nat, tail: bytes)
    requires 0 < |q| <= MAX_RECORD_SIZE && crc < TWO_32 && crc != Checksum(q)
    ensures ReadRecord(Le32(|q|) + q + Le32(crc) + tail) == Damaged
  {
    hide Checksum, Decode, Le32, ReadRecord, ReadBody;
    var body := q + (Le32(crc) + tail);
    assert Le32(|q|) + q + Le32(crc) + tail == Le32(|q|) + body;
    ReadBehindLength(|q|, body);
    ReadBodyWhole(q, crc, tail);
  }

  /** Burst damage to one record is always noticed, and only the records before it are replayed. */
  lemma DamagedRecordStopsRecovery(rs: seq<Record>, r: Record, q: bytes, at: nat, width: nat, tail: bytes)
    requires AllLoggable(rs) && Loggable(r) && BurstDamage(Payload(r), q, at, width)
    ensures var damaged := Le32(|q|) + q + Le32(Checksum(Payload(r)));
            var outcome := RecoverWal(LogBytes(rs) + damaged + tail);
            outcome.status == Corrupted && outcome.data == Replay(rs)
  {
    hide Checksum, RecoverWal, ReadRecord;
    var damaged := Le32(|q|) + q + Le32(Checksum(Payload(r)));
    BurstDamageChangesChecksum(Payload(r), q, at, width);
    ReadDamaged(q, Checksum(Payload(r)), tail);
    assert LogBytes(rs) + damaged + tail == LogBytes(rs) + (damaged + tail);
    ScanLog(rs, damaged + tail);
  }
}
