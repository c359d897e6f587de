/** wal.cpp: the record codec and the physical log format. */
module WalRecord {
  import opened Bytes
  import opened Entries
  import opened Crc32
  import opened Serialization

  datatype Kind = Put | Delete

  datatype Record = Record(kind: Kind, key: bytes, value: bytes)

  const MAX_KEY_SIZE: nat := 16 * 1024 * 1024
  const MAX_VALUE_SIZE: nat := 16 * 1024 * 1024

  /** The two type bytes; only that they differ is used. */
  function TypeByte(kind: Kind): byte
  {
    match kind case Put => 1 case Delete => 2
  }

  // ---------------------------------------------------------------------------
  // Payload codec
  // ---------------------------------------------------------------------------

  /** Sizes the reader accepts, and no value on a DELETE. */
  predicate WellFormed(r: Record)
  {
    && |r.key| <= MAX_KEY_SIZE
    && |r.value| <= MAX_VALUE_SIZE
    && (r.kind.Delete? ==> r.value == [])
  }

  function Payload(r: Record): (p: bytes)
    ensures |p| == 9 + |r.key| + |r.value|
  {
    [TypeByte(r.kind)] + Sized(r.key) + Sized(r.value)
  }

  function Decode(p: bytes): (r: Option<Record>)
  {
    if p == [] || (p[0] != TypeByte(Put) && p[0] != TypeByte(Delete)) then None
    else
      var kind := if p[0] == TypeByte(Put) then Put else Delete;
      match TakeSized(p[1..], MAX_KEY_SIZE)
      case NoString => None
      case GotString(key, afterKey) =>
        match TakeSized(afterKey, MAX_VALUE_SIZE)
        case NoString => None
        case GotString(value, afterValue) =>
          if afterValue != [] || (kind.Delete? && value != []) then None
          else Some(Record(kind, key, value))
  }

  /** Decoding what was encoded gives the record back, for exactly the well-formed records. */
  lemma DecodeOfPayload(r: Record)
    ensures Decode(Payload(r)) == Some(r) <==> WellFormed(r)
  {
    hide Sized, TakeSized;
    var p := Payload(r);
    if WellFormed(r) {
      assert p[1..] == Sized(r.key) + Sized(r.value);
      TakeSizedOfSized(r.key, Sized(r.value), MAX_KEY_SIZE);
      TakeSizedOfSized(r.value, [], MAX_VALUE_SIZE);
      assert Sized(r.value) + [] == Sized(r.value);
    } else if Decode(p).Some? {
      PayloadOfDecode(p);
    }
  }

  /** The same with the bounds spelled out, 16 MiB each. */
  lemma DecodesExactly(r: Record)
    ensures Decode(Payload(r)) == Some(r)
            <==> |r.key| <= 16777216 && |r.value| <= 16777216 && (r.kind.Delete? ==> r.value == [])
  {
    DecodeOfPayload(r);
    hide Decode, Payload;
  }

  /** Encoding a decoded record gives back the very bytes that were accepted. */
  lemma PayloadOfDecode(p: bytes)
    requires Decode(p).Some?
    ensures WellFormed(Decode(p).value) && Payload(Decode(p).value) == p
  {
    hide Sized, TakeSized;
    SizedOfTakeSized(p[1..], MAX_KEY_SIZE);
    var GotString(key, afterKey) := TakeSized(p[1..], MAX_KEY_SIZE);
    SizedOfTakeSized(afterKey, MAX_VALUE_SIZE);
    assert p == [p[0]] + p[1..];
  }

  method SerializeWalRecord(r: Record) returns (payload: bytes)
    ensures payload == Payload(r)
  {
    payload := [TypeByte(r.kind)];
    payload := AppendUint32(payload, |r.key|);
    payload := payload + r.key;
    payload := AppendUint32(payload, |r.value|);
    payload := payload + r.value;
  }

  method DeserializeWalRecord(payload: bytes) returns (record: Option<Record>)
    ensures record == Decode(payload)
  {
    hide U32, TakeSized;
    if payload == [] {
      return None;
    }
    var offset := 1;
    var rawType := payload[0];
    if rawType != TypeByte(Put) && rawType != TypeByte(Delete) {
      return None;
    }
    TakeSizedAt(payload, offset, MAX_KEY_SIZE);
    var ok, keySize, afterSize := ReadUint32(payload, offset);
    if !ok {
      return None;
    }
    offset := afterSize;
    if keySize > MAX_KEY_SIZE || keySize > |payload| - offset {
      return None;
    }
    var key := payload[offset..offset + keySize];
    offset := offset + keySize;
    TakeSizedAt(payload, offset, MAX_VALUE_SIZE);
    var valueSize;
    ok, valueSize, afterSize := ReadUint32(payload, offset);
    if !ok {
      return None;
    }
    offset := afterSize;
    if valueSize > MAX_VALUE_SIZE || valueSize > |payload| - offset {
      return None;
    }
    var value := payload[offset..offset + valueSize];
    offset := offset + valueSize;
    if offset != |payload| {
      return None;
    }
    var kind := if rawType == TypeByte(Put) then Put else Delete;
    if kind == Delete && value != [] {
      return None;
    }
    return Some(Record(kind, key, value));
  }

  // ---------------------------------------------------------------------------
  // The log: length, payload, checksum
  // ---------------------------------------------------------------------------

  function Frame(payload: bytes): (s: bytes)
    ensures |s| == |payload| + 8
  {
    Le32(|payload|) + payload + Le32(Checksum(payload))
  }

  function RecordBytes(r: Record): bytes
  {
    Frame(Payload(r))
  }

  function LogBytes(rs: seq<Record>): bytes
  {
    if rs == [] then [] else LogBytes(rs[..|rs| - 1]) + RecordBytes(rs[|rs| - 1])
  }

  /** What replaying one record does to the recovered map. */
  function Apply(d: Data, r: Record): Data
  {
    match r.kind
    case Put => d[r.key := Entry(r.value, false)]
    case Delete => d[r.key := TOMBSTONE]
  }

  function Replay(rs: seq<Record>): Data
  {
    if rs == [] then map[] else Apply(Replay(rs[..|rs| - 1]), rs[|rs| - 1])
  }
}
