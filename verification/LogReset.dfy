/** What a torn tail or an unreadable log has cost is over once a flush resets the log. */
module LogReset {
  import opened Bytes
  import opened Entries
  import opened FileSystem
  import opened WalRecord
  import opened Recovery
  import opened SSTable
  import opened TableNames
  import opened Engine
  import opened Invariant
  import opened Frames
  import opened CommandSafety
  import opened StartSafety
  import opened LiveState

  lemma TablesParts(c: Config, space: set<bytes>, p: Process, a: map<bytes, bytes>, m: nat)
    requires TablesOk(c, space, p, a, m)
    ensures ManifestIs(p.disk.manifest, p.next, p.tables)
    ensures ListOk(c.directory, p.tables, p.next) && 1 <= p.next <= m < TWO_64
    ensures NamesOk(c.directory, p.disk.files, m) && Structure(c, space, p.disk.files, p.next, p.tables)
    ensures GoodData(space, p.data) && Shows(c, p.disk.files, p.next, p.tables, p.data, a)
  {
    hide ManifestIs, ListOk, NamesOk, Structure, GoodData, Shows;
  }

  lemma TablesWeaken(c: Config, space: set<bytes>, p: Process, a: map<bytes, bytes>, m: nat, n: nat)
    requires TablesOk(c, space, p, a, m) && m <= n < TWO_64
    ensures TablesOk(c, space, p, a, n)
  {
    hide *;
    TablesParts(c, space, p, a, m);
    NamesWeaken(c.directory, p.disk.files, m, n);
    MakeTables(c, space, p, a, n);
  }

  /** Any record a table can hold, behind whatever the log holds. */
  lemma LogWriteKeepsTables(c: Config, space: set<bytes>, p: Process, r: Record, a: map<bytes, bytes>, m: nat)
    requires TablesOk(c, space, p, a, m) && Storable(space, r)
    ensures TablesOk(c, space, LogWrite(p, r).process, After(a, r), m)
  {
    hide *;
    TablesParts(c, space, p, a, m);
    LogWriteParts(p, r);
    ApplyGood(space, p.data, r);
    ShowsApply(c, p.disk.files, p.next, p.tables, p.data, r, a);
    MakeTables(c, space, LogWrite(p, r).process, After(a, r), m);
  }

  lemma TableFits(c: Config, p: Process, a: map<bytes, bytes>)
    requires Shows(c, p.disk.files, p.next, p.tables, p.data, a)
    ensures Fitting(c, p.disk.files, p.next, p.tables, p.data, map[], a)
  {
    hide Fold, FoldBelow, Live, AllPresent;
    AddNothing(Fold(p.disk.files, p.tables) + p.data, map[]);
    AddNothing(FoldBelow(c.directory, p.disk.files, p.next) + p.data, map[]);
  }

  lemma LastOfFlush(c: Config, p: Process)
    requires p.data != map[]
    ensures var e := Flush(c, p);
            |e.trace| > 0 && e.trace[|e.trace| - 1] == e.process.disk
  {
    hide *;
    FlushSteps(c, p);
  }

  /** Whatever the log was, a flush that completes leaves everything in order, its log empty. */
  lemma FlushedOk(c: Config, space: set<bytes>, p: Process, a: map<bytes, bytes>, m: nat)
    requires ConfigOk(c, space) && TablesOk(c, space, p, a, m) && m + 1 < TWO_64 && p.data != map[]
    ensures var q := Flush(c, p).process;
            ProcessOk(c, space, q, a, m + 1) && q.disk.wal == [] && q.data == map[]
  {
    hide *;
    TablesParts(c, space, p, a, m);
    TableFits(c, p, a);
    EmptyLog(space);
    PublishedOk(c, space, p.disk, p.next, p.tables, a, m, p.data, []);
    FlushSteps(c, p);
    NextIdIs(p.next);
    FlushedState(c, p);
    ClearedProcess(c, space, Flush(c, p).process, a, m + 1);
  }

  /** The number of durable states a flushing command passes up to and including the log reset. */
  ghost function ResetAt(c: Config, p: Process, r: Record): nat
  {
    |LogWrite(p, r).trace| + |Flush(c, LogWrite(p, r).process).trace|
  }

  lemma ResetAtIs(c: Config, p: Process, r: Record)
    ensures ResetAt(c, p, r) == |LogWrite(p, r).trace| + |Flush(c, LogWrite(p, r).process).trace|
  {
    hide LogWrite, Flush;
  }

  lemma LoggedData(p: Process, r: Record)
    ensures LogWrite(p, r).process.data == Apply(p.data, r) != map[]
  {
    hide RecordBytes;
    assert r.key in Apply(p.data, r);
  }

  lemma WriteTraceSize(d: Image, name: bytes, s: bytes)
    ensures |WriteTrace(d, name, s)| == |s| + 1
  {
  }

  /** The flushes of two processes that differ in their logs: the same from the reset on. */
  lemma SameReset(c: Config, p: Process, q: Process)
    requires q == p.(disk := p.disk.(wal := q.disk.wal)) && p.data != map[]
    ensures var e, f := Flush(c, p), Flush(c, q);
            && e.process == f.process && |e.trace| == |f.trace| > 0
            && e.trace[|e.trace| - 1] == f.trace[|f.trace| - 1]
  {
    hide *;
    FlushSteps(c, p);
    FlushSteps(c, q);
    var name, s := TableName(c.directory, p.next), TableBytes(p.data);
    WriteTraceSize(p.disk, name, s);
    WriteTraceSize(q.disk, name, s);
    var files := NewFile(c, p.disk.files, p.next, s);
    var more := p.tables + [NewMeta(c, p.next, p.data)];
    WithManifestIs(Image([], p.disk.manifest, files), NextId(p.next), more);
  }

  /** A flushing command ends the same, and passes the same states from the reset on, whatever the log was. */
  lemma SameBehindReset(c: Config, p: Process, q: Process, r: Record, at: nat)
    requires q == p.(disk := p.disk.(wal := q.disk.wal))
    ensures var e, f := Command(c, p, r, true), Command(c, q, r, true);
            && e.process == f.process && |e.trace| == |f.trace| && 0 < |RecordBytes(r)| <= ResetAt(c, p, r)
            && (ResetAt(c, p, r) <= at <= |e.trace| ==> DiskAt(p.disk, e.trace, at) == DiskAt(q.disk, f.trace, at))
  {
    hide *;
    WriteIs(c, p, r, true);
    WriteIs(c, q, r, true);
    LogWriteSteps(p, r);
    LogWriteSteps(q, r);
    LoggedData(p, r);
    LoggedData(q, r);
    ResetAtIs(c, p, r);
    var x, y := LogWrite(p, r), LogWrite(q, r);
    assert y.process == x.process.(disk := x.process.disk.(wal := y.process.disk.wal));
    SameReset(c, x.process, y.process);
    var e, f := Flush(c, x.process), Flush(c, y.process);
    if ResetAt(c, p, r) <= at <= |Command(c, p, r, true).trace| {
      SameEnds(p.disk, q.disk, x.trace, y.trace, e.trace, f.trace, MaybeCompact(c, e.process).trace, at);
    }
  }

  lemma SameEnds(d: Image, d': Image, x: seq<Image>, y: seq<Image>, e: seq<Image>, f: seq<Image>, rest: seq<Image>, at: nat)
    requires |x| == |y| && |e| == |f| > 0 && e[|e| - 1] == f[|f| - 1]
    requires |x| + |e| <= at <= |x| + |e| + |rest|
    ensures DiskAt(d, x + e + rest, at) == DiskAt(d', y + f + rest, at)
  {
  }

  /**
   * A flushing command, whatever its record's size and whatever the log before it: the process is in order
   * afterwards and its log has no tail, and a crash is harmless from the moment the log is reset.
   */
  lemma FlushHealsLog(c: Config, space: set<bytes>, p: Process, r: Record, a: map<bytes, bytes>, m: nat, at: nat)
    requires ConfigOk(c, space) && TablesOk(c, space, p, a, m) && m + 2 < TWO_64
    requires Storable(space, r) && (WillCompact(c, p, true) ==> After(a, r) != map[])
    ensures var e := Command(c, p, r, true);
            && ProcessOk(c, space, e.process, After(a, r), m + 2)
            && RecoverWal(e.process.disk.wal).rest == []
            && (ResetAt(c, p, r) <= at <= |e.trace| ==> Safe(c, space, DiskAt(p.disk, e.trace, at), After(a, r), m + 2))
  {
    hide *;
    var b, x := After(a, r), LogWrite(p, r).process;
    WriteIs(c, p, r, true);
    WillCompactIs(c, p, true);
    LogWriteKeepsTables(c, space, p, r, a, m);
    LogWriteParts(p, r);
    FlushedOk(c, space, x, b, m);
    FlushAddsOne(c, x);
    TablesParts(c, space, p, a, m);
    var f := Flush(c, x);
    MaybeCompactSafe(c, space, f.process, b, m + 1);
    EmptyLog(space);
    ResetAtIs(c, p, r);
    LastOfFlush(c, x);
    ProcessIsSafe(c, space, f.process, b, m + 1);
    SafeWeaken(c, space, f.process.disk, b, m + 1, m + 2);
    if ResetAt(c, p, r) <= at <= |Command(c, p, r, true).trace| {
      SafeFrom(c, space, p.disk, LogWrite(p, r).trace + f.trace, MaybeCompact(c, f.process).trace, b, m + 2, at);
    }
  }

  lemma SafeFrom(c: Config, space: set<bytes>, d: Image, s: seq<Image>, t: seq<Image>, a: map<bytes, bytes>, m: nat, at: nat)
    requires s != [] && Safe(c, space, s[|s| - 1], a, m) && AllSafe(c, space, t, a, m)
    requires |s| <= at <= |s + t|
    ensures Safe(c, space, DiskAt(d, s + t, at), a, m)
  {
    hide Safe;
  }

  /** The moment the log is reset. */
  lemma SafeAtReset(c: Config, space: set<bytes>, p: Process, r: Record, a: map<bytes, bytes>, m: nat)
    requires ConfigOk(c, space) && TablesOk(c, space, p, a, m) && m + 2 < TWO_64 && Storable(space, r)
    ensures var trace := Command(c, p, r, true).trace;
            && ResetAt(c, p, r) <= |trace|
            && Safe(c, space, DiskAt(p.disk, trace, ResetAt(c, p, r)), After(a, r), m + 2)
  {
    hide *;
    var b, x := After(a, r), LogWrite(p, r);
    var f := Flush(c, x.process);
    WriteIs(c, p, r, true);
    ResetAtIs(c, p, r);
    LogWriteKeepsTables(c, space, p, r, a, m);
    LogWriteParts(p, r);
    FlushedOk(c, space, x.process, b, m);
    LastOfFlush(c, x.process);
    ProcessIsSafe(c, space, f.process, b, m + 1);
    SafeWeaken(c, space, f.process.disk, b, m + 1, m + 2);
    EarlyState(p.disk, x.trace + f.trace, MaybeCompact(c, f.process).trace, ResetAt(c, p, r));
    LastState(p.disk, x.trace, f.trace);
  }

  lemma LastState(d: Image, s: seq<Image>, t: seq<Image>)
    requires t != []
    ensures DiskAt(d, s + t, |s| + |t|) == t[|t| - 1]
  {
  }

  /** Up to the log reset a command that flushes is safe even if its compaction goes on to merge to nothing. */
  lemma SafeUpToReset(c: Config, space: set<bytes>, p: Process, r: Record, a: map<bytes, bytes>, m: nat, at: nat)
    requires ConfigOk(c, space) && ProcessOk(c, space, p, a, m) && m + 2 < TWO_64
    requires RecoverWal(p.disk.wal).rest == [] && Acceptable(space, r) && at <= ResetAt(c, p, r)
    ensures var trace := Command(c, p, r, true).trace;
            && at <= |trace|
            && Safe(c, space, DiskAt(p.disk, trace, at), if at >= |RecordBytes(r)| then After(a, r) else a, m + 2)
  {
    hide *;
    var b, x := After(a, r), LogWrite(p, r);
    var f := Flush(c, x.process);
    WriteIs(c, p, r, true);
    ResetAtIs(c, p, r);
    LogWriteSplit(c, space, p, r, a, m);
    FlushSafe(c, space, x.process, b, m);
    SafeSplitWeaken(c, space, x.trace, |RecordBytes(r)| - 1, a, b, m, m + 2);
    AllSafeWeaken(c, space, f.trace, b, m + 1, m + 2);
    SafeSplitConcat(c, space, x.trace, f.trace, |RecordBytes(r)| - 1, a, b, m + 2);
    ProcessIsSafe(c, space, p, a, m);
    SafeWeaken(c, space, p.disk, a, m, m + 2);
    SplitAt(c, space, p.disk, x.trace + f.trace, |RecordBytes(r)| - 1, a, b, m + 2, at);
    EarlyState(p.disk, x.trace + f.trace, MaybeCompact(c, f.process).trace, at);
  }

  lemma EarlyState(d: Image, s: seq<Image>, t: seq<Image>, at: nat)
    requires at <= |s|
    ensures at <= |s + t| && DiskAt(d, s + t, at) == DiskAt(d, s, at)
  {
  }

  /** A command's effect on the part that does not depend on the log. */
  lemma CommandKeepsTables(c: Config, space: set<bytes>, p: Process, r: Record, flush: bool, a: map<bytes, bytes>, m: nat)
    requires ConfigOk(c, space) && TablesOk(c, space, p, a, m) && m + 2 < TWO_64
    requires Storable(space, r) && (WillCompact(c, p, flush) ==> After(a, r) != map[])
    ensures var q := Command(c, p, r, flush).process;
            && TablesOk(c, space, q, After(a, r), m + 2)
            && (flush ==> Logged(c, space, q, After(a, r)))
  {
    hide *;
    WriteIs(c, p, r, flush);
    if flush {
      FlushHealsLog(c, space, p, r, a, m, 0);
      ProcessSplit(c, space, Command(c, p, r, flush).process, After(a, r), m + 2);
    } else {
      LogWriteKeepsTables(c, space, p, r, a, m);
      TablesWeaken(c, space, LogWrite(p, r).process, After(a, r), m, m + 2);
    }
  }

  /** With nothing in the memtable and nothing in the log there is nothing to recover. */
  lemma NothingLogged(c: Config, space: set<bytes>, p: Process, a: map<bytes, bytes>, m: nat)
    requires TablesOk(c, space, p, a, m) && p.data == map[] && p.disk.wal == []
    ensures Logged(c, space, p, a)
  {
    EmptyLog(space);
    hide ManifestIs, ListOk, NamesOk, Structure, GoodData, Shows, LogOk, RecoverWal;
  }
}
