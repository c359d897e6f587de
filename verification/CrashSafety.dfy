/** Whole runs: any sequence of commands, process crashes between any two durable steps, and restarts. */
module CrashSafety {
  import opened Bytes
  import opened Text
  import opened Entries
  import opened FileSystem
  import opened WalRecord
  import opened Recovery
  import opened SSTable
  import opened ManifestText
  import opened TableNames
  import opened Engine
  import opened Invariant
  import opened Frames
  import opened CommandSafety
  import opened StartSafety
  import opened LiveReads
  import opened LiveState
  import opened LogReset

  datatype State = Running(process: Process) | Down(disk: Image)

  /**
   * A command that completes, a command cut off after its first `at` durable states, a crash between
   * commands, a start that completes, a start cut off after its first `at` durable states.
   */
  datatype Event =
    | Execute(record: Record, flush: bool)
    | CrashInCommand(record: Record, flush: bool, at: nat)
    | Crash
    | Restart
    | CrashInRestart(at: nat)

  ghost predicate Step(c: Config, s: State, event: Event, t: State)
  {
    match event
    case Execute(r, flush) =>
      s.Running? && t == Running(Command(c, s.process, r, flush).process)
    case CrashInCommand(r, flush, at) =>
      s.Running? && at <= |Command(c, s.process, r, flush).trace|
      && t == Down(DiskAt(s.process.disk, Command(c, s.process, r, flush).trace, at))
    case Crash =>
      s.Running? && t == Down(s.process.disk)
    case Restart =>
      s.Down? && t == (match Initialize(c, s.disk) case Failed => s case Started(_, p) => Running(p))
    case CrashInRestart(at) =>
      s.Down? && Initialize(c, s.disk).Started? && at <= |Initialize(c, s.disk).trace|
      && t == Down(DiskAt(s.disk, Initialize(c, s.disk).trace, at))
  }

  /** The plain map after the events: completed commands, and cut-off ones whose log append completed. */
  function Expected(events: seq<Event>): map<bytes, bytes>
  {
    if events == [] then map[]
    else
      var a := Expected(events[..|events| - 1]);
      match events[|events| - 1]
      case Execute(r, _) => After(a, r)
      case CrashInCommand(r, _, at) => if at >= |RecordBytes(r)| then After(a, r) else a
      case Crash => a
      case Restart => a
      case CrashInRestart(_) => a
  }

  /** The log ends at a record boundary: a scan leaves no bytes over. */
  predicate CleanLog(wal: bytes)
  {
    RecoverWal(wal).rest == []
  }

  /**
   * Whether a start could replay the log and lose nothing: every record since the last log reset was within the
   * reader's bound and was appended where the log ended at a record boundary.
   */
  ghost predicate Intact(states: seq<State>, events: seq<Event>)
    requires |states| == |events| + 1
    decreases |events|
  {
    events == [] ||
    var n := |events| - 1;
    match events[n]
    case Execute(r, flush) => flush || (Intact(states[..n + 1], events[..n]) && Appendable(states[n], r))
    case CrashInCommand(_, _, _) => true
    case Crash => true
    case Restart => true
    case CrashInRestart(_) => true
  }

  /** The record is within the reader's bound and meets no torn tail. */
  predicate Appendable(s: State, r: Record)
  {
    s.Running? && CleanLog(s.process.disk.wal) && Loggable(r)
  }

  /**
   * A command's key is a word, its sizes fit a table. A crash asks more: an intact log and a list without empty
   * tables. A crash inside a command asks the same of its append, unless it falls behind the log reset, and a
   * live key left over if it falls behind the beginning of a merge.
   */
  ghost predicate Allowed(c: Config, space: set<bytes>, s: State, intact: bool, a: map<bytes, bytes>, event: Event)
  {
    s.Running? ==>
      match event
      case Execute(r, _) => Storable(space, r)
      case Crash => intact && ListsEntries(s.process.tables)
      case CrashInCommand(r, flush, at) =>
        && Storable(space, r) && ListsEntries(s.process.tables)
        && ((intact && Appendable(s, r)) || (flush && at >= ResetAt(c, s.process, r)))
        && (WillCompact(c, s.process, flush) && at > ResetAt(c, s.process, r) ==> After(a, r) != map[])
      case Restart => true
      case CrashInRestart(_) => true
  }

  const EMPTY_DISK: Image := Image([], None, map[])

  ghost predicate IsRun(c: Config, space: set<bytes>, states: seq<State>, events: seq<Event>)
  {
    && |states| == |events| + 1
    && states[0] == Down(EMPTY_DISK)
    && (forall i :: 0 <= i < |events| ==> Step(c, states[i], events[i], states[i + 1]))
    && (forall i :: 0 <= i < |events| ==>
          Allowed(c, space, states[i], Intact(states[..i + 1], events[..i]), Expected(events[..i]), events[i]))
  }

  /** A running process always serves the map; what a start needs is there unless the log or the list lacks it. */
  ghost predicate StateOk(c: Config, space: set<bytes>, s: State, intact: bool, a: map<bytes, bytes>, m: nat)
  {
    match s
    case Running(p) =>
      && Serves(c, space, p, a, m)
      && (ListsEntries(p.tables) ==> TablesOk(c, space, p, a, m))
      && (ListsEntries(p.tables) && intact ==> Logged(c, space, p, a))
    case Down(d) => Safe(c, space, d, a, m)
  }

  // ---------------------------------------------------------------------------
  // One event
  // ---------------------------------------------------------------------------

  lemma AppendableIs(space: set<bytes>, s: State, r: Record)
    requires Appendable(s, r) && Storable(space, r)
    ensures s.Running? && RecoverWal(s.process.disk.wal).rest == [] && Acceptable(space, r)
  {
    hide RecoverWal, Loggable, IsToken;
  }

  /** A completed command on a log and a list in order. */
  lemma OrderlyCommand(c: Config, space: set<bytes>, p: Process, r: Record, flush: bool, a: map<bytes, bytes>, m: nat)
    requires ConfigOk(c, space) && TablesOk(c, space, p, a, m) && m + 2 < TWO_64 && Storable(space, r)
    requires WillCompact(c, p, flush) ==> After(a, r) != map[]
    ensures var q := Command(c, p, r, flush).process;
            && TablesOk(c, space, q, After(a, r), m + 2)
            && (flush ==> Logged(c, space, q, After(a, r)))
            && (Logged(c, space, p, a) && Appendable(Running(p), r) ==> Logged(c, space, q, After(a, r)))
  {
    hide *;
    CommandKeepsTables(c, space, p, r, flush, a, m);
    if Logged(c, space, p, a) && Appendable(Running(p), r) {
      AppendableIs(space, Running(p), r);
      ProcessSplit(c, space, p, a, m);
      WriteSafe(c, space, p, r, flush, a, m);
      ProcessSplit(c, space, Command(c, p, r, flush).process, After(a, r), m + 2);
    }
  }

  /** A merge that leaves a live key puts the list in order again, with the intended loop. */
  lemma MergeMends(c: Config, space: set<bytes>, p: Process, r: Record, flush: bool, a: map<bytes, bytes>, m: nat)
    requires ConfigOk(c, space) && Serves(c, space, p, a, m) && m + 2 < TWO_64 && Storable(space, r)
    requires !ListsEntries(p.tables) && ListsEntries(Command(c, p, r, flush).process.tables)
    ensures var q := Command(c, p, r, flush).process;
            TablesOk(c, space, q, After(a, r), m + 2) && Logged(c, space, q, After(a, r))
  {
    hide *;
    var q := Command(c, p, r, flush).process;
    LiveCommand(c, space, p, r, flush, a, m);
    WillCompactIs(c, p, flush);
    if c.deletion.AsWritten? {
      WrittenEmptyIsMissing(c, space, p, a, m);
    }
    ServesTables(c, space, q, After(a, r), m + 2);
    NothingLogged(c, space, q, After(a, r), m + 2);
  }

  lemma ExecuteEvent(c: Config, space: set<bytes>, p: Process, r: Record, flush: bool, intact: bool, a: map<bytes, bytes>, m: nat)
    requires ConfigOk(c, space) && StateOk(c, space, Running(p), intact, a, m) && m + 2 < TWO_64 && Storable(space, r)
    ensures StateOk(c, space, Running(Command(c, p, r, flush).process), flush || (intact && Appendable(Running(p), r)), After(a, r), m + 2)
  {
    hide *;
    RunningParts(c, space, p, intact, a, m);
    var q := Command(c, p, r, flush).process;
    LiveCommand(c, space, p, r, flush, a, m);
    if ListsEntries(q.tables) {
      if ListsEntries(p.tables) {
        OrderlyCommand(c, space, p, r, flush, a, m);
      } else {
        MergeMends(c, space, p, r, flush, a, m);
      }
    }
    MakeRunningState(c, space, q, flush || (intact && Appendable(Running(p), r)), After(a, r), m + 2);
  }

  lemma RunningParts(c: Config, space: set<bytes>, p: Process, intact: bool, a: map<bytes, bytes>, m: nat)
    requires StateOk(c, space, Running(p), intact, a, m)
    ensures Serves(c, space, p, a, m)
    ensures ListsEntries(p.tables) ==> TablesOk(c, space, p, a, m)
    ensures ListsEntries(p.tables) && intact ==> Logged(c, space, p, a) && ProcessOk(c, space, p, a, m)
  {
    ProcessSplit(c, space, p, a, m);
    hide Serves, TablesOk, Logged, ListsEntries, ProcessOk;
  }

  lemma MakeRunningState(c: Config, space: set<bytes>, p: Process, intact: bool, a: map<bytes, bytes>, m: nat)
    requires Serves(c, space, p, a, m)
    requires ListsEntries(p.tables) ==> TablesOk(c, space, p, a, m)
    requires ListsEntries(p.tables) && intact ==> Logged(c, space, p, a)
    ensures StateOk(c, space, Running(p), intact, a, m)
  {
    hide Serves, TablesOk, Logged, ListsEntries;
  }

  /** A command cut off where a log without a tail is being appended to, or later. */
  lemma CutOff(c: Config, space: set<bytes>, p: Process, r: Record, flush: bool, a: map<bytes, bytes>, m: nat, at: nat)
    requires ConfigOk(c, space) && ProcessOk(c, space, p, a, m) && m + 2 < TWO_64
    requires Acceptable(space, r) && RecoverWal(p.disk.wal).rest == []
    requires WillCompact(c, p, flush) && at > ResetAt(c, p, r) ==> After(a, r) != map[]
    requires at <= |Command(c, p, r, flush).trace|
    ensures Safe(c, space, DiskAt(p.disk, Command(c, p, r, flush).trace, at),
                 if at >= |RecordBytes(r)| then After(a, r) else a, m + 2)
  {
    hide *;
    if flush && at <= ResetAt(c, p, r) {
      SafeUpToReset(c, space, p, r, a, m, at);
    } else {
      WillCompactIs(c, p, flush);
      WriteSafe(c, space, p, r, flush, a, m);
      ProcessIsSafe(c, space, p, a, m);
      SafeWeaken(c, space, p.disk, a, m, m + 2);
      SplitAt(c, space, p.disk, Command(c, p, r, flush).trace, |RecordBytes(r)| - 1, a, After(a, r), m + 2, at);
    }
  }

  /** A command cut off behind the log reset, whatever the log was. */
  lemma CutOffLate(c: Config, space: set<bytes>, p: Process, r: Record, a: map<bytes, bytes>, m: nat, at: nat)
    requires ConfigOk(c, space) && TablesOk(c, space, p, a, m) && m + 2 < TWO_64 && Storable(space, r)
    requires WillCompact(c, p, true) && at > ResetAt(c, p, r) ==> After(a, r) != map[]
    requires ResetAt(c, p, r) <= at <= |Command(c, p, r, true).trace|
    ensures at >= |RecordBytes(r)|
    ensures Safe(c, space, DiskAt(p.disk, Command(c, p, r, true).trace, at), After(a, r), m + 2)
  {
    hide *;
    ResetAtIs(c, p, r);
    LogWriteSteps(p, r);
    if at == ResetAt(c, p, r) {
      SafeAtReset(c, space, p, r, a, m);
    } else {
      FlushHealsLog(c, space, p, r, a, m, at);
    }
  }

  lemma CrashEvent(c: Config, space: set<bytes>, p: Process, event: Event, intact: bool, a: map<bytes, bytes>, m: nat)
    requires event.CrashInCommand? && event.at <= |Command(c, p, event.record, event.flush).trace|
    requires ConfigOk(c, space) && StateOk(c, space, Running(p), intact, a, m) && m + 2 < TWO_64
    requires Allowed(c, space, Running(p), intact, a, event)
    ensures Safe(c, space, DiskAt(p.disk, Command(c, p, event.record, event.flush).trace, event.at),
                 if event.at >= |RecordBytes(event.record)| then After(a, event.record) else a, m + 2)
  {
    RunningParts(c, space, p, intact, a, m);
    hide StateOk, Serves, TablesOk, Logged, ListsEntries, ProcessOk, Command, RecordBytes, After, WillCompact, Safe, DiskAt, Appendable, Storable, ConfigOk, ResetAt;
    if intact && Appendable(Running(p), event.record) {
      AppendableIs(space, Running(p), event.record);
      CutOff(c, space, p, event.record, event.flush, a, m, event.at);
    } else {
      CutOffLate(c, space, p, event.record, a, m, event.at);
    }
  }

  lemma RestartStep(c: Config, space: set<bytes>, d: Image, a: map<bytes, bytes>, m: nat, at: nat)
    requires ConfigOk(c, space) && Safe(c, space, d, a, m) && m + 1 < TWO_64
    ensures Initialize(c, d).Started?
    ensures ProcessOk(c, space, Initialize(c, d).process, a, m + 1)
    ensures at <= |Initialize(c, d).trace| ==> Safe(c, space, DiskAt(d, Initialize(c, d).trace, at), a, m + 1)
  {
    hide *;
    StartSafe(c, space, d, a, m);
    RecoveredParts(c, space, d, Initialize(c, d), a, m + 1);
    SafeWeaken(c, space, d, a, m, m + 1);
    if at <= |Initialize(c, d).trace| {
      TraceAt(c, space, d, Initialize(c, d).trace, a, m + 1, at);
    }
  }

  lemma TraceAt(c: Config, space: set<bytes>, d: Image, trace: seq<Image>, a: map<bytes, bytes>, m: nat, at: nat)
    requires AllSafe(c, space, trace, a, m) && Safe(c, space, d, a, m) && at <= |trace|
    ensures Safe(c, space, DiskAt(d, trace, at), a, m)
  {
    hide Safe;
  }

  lemma RecoveredParts(c: Config, space: set<bytes>, d: Image, s: Start, a: map<bytes, bytes>, m: nat)
    requires Recovered(c, space, d, s, a, m)
    ensures s.Started? && ProcessOk(c, space, s.process, a, m) && Live(s.process.data) == a
    ensures AllSafe(c, space, s.trace, a, m)
    ensures AllPresent(s.process.disk.files, s.process.tables)
  {
    hide AllSafe, ProcessOk, AllPresent, Live;
  }

  /** A process that a start has produced is in order. */
  lemma StartedOk(c: Config, space: set<bytes>, d: Image, a: map<bytes, bytes>, m: nat)
    requires ConfigOk(c, space) && Safe(c, space, d, a, m) && m + 2 < TWO_64
    ensures Initialize(c, d).Started? && Live(Initialize(c, d).process.data) == a
    ensures var p := Initialize(c, d).process;
            && AllPresent(p.disk.files, p.tables)
            && StateOk(c, space, Running(p), true, a, m + 2)
  {
    hide *;
    StartSafe(c, space, d, a, m);
    RecoveredParts(c, space, d, Initialize(c, d), a, m + 1);
    var p := Initialize(c, d).process;
    ProcessWeaken(c, space, p, a, m + 1, m + 2);
    StartedServes(c, space, p, a, m + 2);
    ProcessSplit(c, space, p, a, m + 2);
    MakeRunningState(c, space, p, true, a, m + 2);
  }

  lemma ExpectedAfterCommand(before: seq<Event>, event: Event)
    ensures event.Execute? ==> Expected(before + [event]) == After(Expected(before), event.record)
    ensures event.CrashInCommand? ==>
              Expected(before + [event])
              == if event.at >= |RecordBytes(event.record)| then After(Expected(before), event.record) else Expected(before)
    ensures event.Crash? || event.Restart? || event.CrashInRestart? ==> Expected(before + [event]) == Expected(before)
  {
    hide RecordBytes, After;
    assert (before + [event])[..|before + [event]| - 1] == before;
  }

  lemma RunningStep(c: Config, p: Process, event: Event, t: State)
    requires Step(c, Running(p), event, t)
    ensures event.Execute? ==> t == Running(Command(c, p, event.record, event.flush).process)
    ensures event.Crash? ==> t == Down(p.disk)
    ensures event.CrashInCommand? ==>
              var e := Command(c, p, event.record, event.flush);
              event.at <= |e.trace| && t == Down(DiskAt(p.disk, e.trace, event.at))
    ensures !event.Restart? && !event.CrashInRestart?
  {
    hide Command, DiskAt, Initialize;
  }

  lemma AllowedParts(c: Config, space: set<bytes>, p: Process, intact: bool, a: map<bytes, bytes>, event: Event)
    requires Allowed(c, space, Running(p), intact, a, event)
    ensures event.Execute? ==> Storable(space, event.record)
    ensures event.Crash? ==> intact && ListsEntries(p.tables)
  {
    hide Storable, ListsEntries, Appendable, ResetAt, WillCompact, After;
  }

  lemma MakeDown(c: Config, space: set<bytes>, d: Image, intact: bool, a: map<bytes, bytes>, m: nat)
    requires Safe(c, space, d, a, m)
    ensures StateOk(c, space, Down(d), intact, a, m)
  {
    hide Safe;
  }

  lemma RunningEvent(c: Config, space: set<bytes>, p: Process, event: Event, t: State, intact: bool, before: seq<Event>, m: nat)
    requires ConfigOk(c, space) && StateOk(c, space, Running(p), intact, Expected(before), m) && m + 2 < TWO_64
    requires Step(c, Running(p), event, t) && Allowed(c, space, Running(p), intact, Expected(before), event)
    ensures StateOk(c, space, t, !event.Execute? || event.flush || (intact && Appendable(Running(p), event.record)),
                    Expected(before + [event]), m + 2)
  {
    hide *;
    var a, b := Expected(before), Expected(before + [event]);
    RunningStep(c, p, event, t);
    AllowedParts(c, space, p, intact, a, event);
    ExpectedAfterCommand(before, event);
    if event.Execute? {
      ExecuteEvent(c, space, p, event.record, event.flush, intact, a, m);
    } else if event.CrashInCommand? {
      CrashEvent(c, space, p, event, intact, a, m);
      MakeDown(c, space, t.disk, true, b, m + 2);
    } else {
      RunningParts(c, space, p, intact, a, m);
      ProcessIsSafe(c, space, p, a, m);
      SafeWeaken(c, space, p.disk, a, m, m + 2);
      MakeDown(c, space, t.disk, true, b, m + 2);
    }
  }

  lemma DownEvent(c: Config, space: set<bytes>, s: State, event: Event, t: State, a: map<bytes, bytes>, m: nat)
    requires event.Restart? || event.CrashInRestart?
    requires ConfigOk(c, space) && s.Down? && Safe(c, space, s.disk, a, m) && m + 2 < TWO_64
    requires Step(c, s, event, t)
    ensures StateOk(c, space, t, true, a, m + 2)
  {
    hide ConfigOk, Serves, TablesOk, Logged, ListsEntries, ProcessOk, Safe, Initialize, DiskAt, Live, AllPresent;
    match event
    case Restart =>
      StartedOk(c, space, s.disk, a, m);
    case CrashInRestart(at) =>
      RestartStep(c, space, s.disk, a, m, at);
      SafeWeaken(c, space, t.disk, a, m + 1, m + 2);
  }

  /** Commands and crashes happen to running processes, starts to stopped ones. */
  lemma StepSides(c: Config, s: State, event: Event, t: State)
    requires Step(c, s, event, t)
    ensures s.Running? <==> event.Execute? || event.Crash? || event.CrashInCommand?
  {
    hide Command, Initialize, DiskAt;
  }

  lemma DownIsSafe(c: Config, space: set<bytes>, s: State, intact: bool, a: map<bytes, bytes>, m: nat)
    requires StateOk(c, space, s, intact, a, m) && s.Down?
    ensures Safe(c, space, s.disk, a, m)
  {
    hide Safe;
  }

  lemma StepOk(c: Config, space: set<bytes>, s: State, event: Event, t: State, intact: bool, before: seq<Event>, m: nat)
    requires ConfigOk(c, space) && StateOk(c, space, s, intact, Expected(before), m) && m + 2 < TWO_64
    requires Step(c, s, event, t) && Allowed(c, space, s, intact, Expected(before), event)
    ensures StateOk(c, space, t, !event.Execute? || event.flush || (intact && Appendable(s, event.record)),
                    Expected(before + [event]), m + 2)
  {
    hide *;
    StepSides(c, s, event, t);
    if s.Running? {
      RunningEvent(c, space, s.process, event, t, intact, before, m);
    } else {
      DownIsSafe(c, space, s, intact, Expected(before), m);
      DownEvent(c, space, s, event, t, Expected(before), m);
      ExpectedAfterCommand(before, event);
    }
  }

  lemma EmptyDirectoryOk(c: Config, space: set<bytes>)
    ensures ManifestIs(None, 1, []) && ListOk(c.directory, [], 1) && NamesOk(c.directory, map[], 1)
    ensures Structure(c, space, map[], 1, [])
  {
    NoData(space);
    hide TableName, GoodData, Print;
  }

  lemma EmptyDirectoryShows(c: Config)
    ensures Shows(c, map[], 1, [], map[], map[])
  {
    var none: Files := map[];
    FoldBelowStep(c.directory, none, 0);
    FoldBelowStep(c.directory, none, 1);
    hide TableName, AllPresent;
  }

  lemma EmptyDiskSafe(c: Config, space: set<bytes>)
    ensures Safe(c, space, EMPTY_DISK, map[], 1)
  {
    EmptyDiskIs();
    hide *;
    EmptyLog(space);
    EmptyDirectoryOk(c, space);
    EmptyDirectoryShows(c);
    MakeDisk(c, space, EMPTY_DISK, 1, [], map[], 1);
    MakeSafe(c, space, EMPTY_DISK, 1, [], map[], 1);
  }

  lemma EmptyDiskIs()
    ensures EMPTY_DISK == Image([], None, map[]) && 1 < TWO_64
  {
  }

  lemma IntactStep(states: seq<State>, events: seq<Event>)
    requires |states| == |events| + 1 && events != []
    ensures var n := |events| - 1;
            Intact(states, events) <==>
              !events[n].Execute? || events[n].flush
              || (Intact(states[..n + 1], events[..n]) && Appendable(states[n], events[n].record))
  {
    hide Appendable;
  }

  lemma RunPrefix(c: Config, space: set<bytes>, states: seq<State>, events: seq<Event>, n: nat)
    requires IsRun(c, space, states, events) && n <= |events|
    ensures |states| == |events| + 1 && IsRun(c, space, states[..n + 1], events[..n])
    ensures n < |events| ==>
              && Step(c, states[n], events[n], states[n + 1])
              && Allowed(c, space, states[n], Intact(states[..n + 1], events[..n]), Expected(events[..n]), events[n])
    ensures states[0] == Down(EMPTY_DISK)
  {
    hide Step, Allowed, Expected, Intact;
    var before, less := states[..n + 1], events[..n];
    forall i | 0 <= i < n
      ensures before[..i + 1] == states[..i + 1] && less[..i] == events[..i]
    {
    }
  }

  /** The invariant of every run, whatever the state of its log and its list. */
  lemma {:induction false} RunOk(c: Config, space: set<bytes>, states: seq<State>, events: seq<Event>)
    requires ConfigOk(c, space) && IsRun(c, space, states, events) && 2 * |events| + 1 < TWO_64
    ensures |states| == |events| + 1
    ensures StateOk(c, space, states[|events|], Intact(states, events), Expected(events), 2 * |events| + 1)
  {
    hide *;
    RunPrefix(c, space, states, events, if events == [] then 0 else |events| - 1);
    if events == [] {
      EmptyStateOk(c, space, Intact(states, events));
    } else {
      var n := |events| - 1;
      var init := events[..n];
      RunOk(c, space, states[..n + 1], init);
      StepOk(c, space, states[n], events[n], states[n + 1], Intact(states[..n + 1], init), init, 2 * n + 1);
      IntactStep(states, events);
      assert init + [events[n]] == events;
    }
  }

  lemma EmptyStateOk(c: Config, space: set<bytes>, intact: bool)
    ensures StateOk(c, space, Down(EMPTY_DISK), intact, Expected([]), 1)
  {
    EmptyDiskSafe(c, space);
    hide Safe;
  }

  // ---------------------------------------------------------------------------
  // The theorems
  // ---------------------------------------------------------------------------

  /** The disk of a state, running or not. */
  function DiskOf(s: State): Image
  {
    match s case Running(p) => p.disk case Down(d) => d
  }

  /** A crash now would find an intact log and a list without empty tables; a stopped process did when it stopped. */
  ghost predicate MayCrash(states: seq<State>, events: seq<Event>)
    requires |states| == |events| + 1
  {
    var s := states[|events|];
    s.Running? ==> Intact(states, events) && ListsEntries(s.process.tables)
  }

  lemma StateIsSafe(c: Config, space: set<bytes>, s: State, intact: bool, a: map<bytes, bytes>, m: nat)
    requires StateOk(c, space, s, intact, a, m) && (s.Running? ==> intact && ListsEntries(s.process.tables))
    ensures Safe(c, space, DiskOf(s), a, m)
  {
    if s.Running? {
      RunningParts(c, space, s.process, intact, a, m);
      hide Serves, TablesOk, Logged, ListsEntries, ProcessOk, Safe;
      ProcessIsSafe(c, space, s.process, a, m);
    }
  }

  /** A start on a safe disk, and the reads that follow it. */
  lemma StartReads(c: Config, space: set<bytes>, d: Image, a: map<bytes, bytes>, m: nat, key: bytes)
    requires ConfigOk(c, space) && Safe(c, space, d, a, m) && m + 2 < TWO_64
    ensures Initialize(c, d).Started? && Live(Initialize(c, d).process.data) == a
    ensures ReadKey(Initialize(c, d).process, key) == Answer(a, key)
  {
    hide *;
    StartedOk(c, space, d, a, m);
    var p := Initialize(c, d).process;
    RunningParts(c, space, p, true, a, m + 2);
    ReadsAgree(c, space, p, a, m + 2, key);
  }

  /**
   * Crash safety over whole runs, with either deletion loop: wherever a run may crash, a start succeeds and every
   * key then reads as in the plain map of the completed commands and of those interrupted ones whose log append
   * had completed.
   */
  lemma CrashSafe(c: Config, space: set<bytes>, states: seq<State>, events: seq<Event>, key: bytes)
    requires ConfigOk(c, space) && IsRun(c, space, states, events) && 2 * |events| + 3 < TWO_64
    requires |states| == |events| + 1 && MayCrash(states, events)
    ensures var start := Initialize(c, DiskOf(states[|events|]));
            && start.Started?
            && Live(start.process.data) == Expected(events)
            && ReadKey(start.process, key) == Answer(Expected(events), key)
  {
    MayCrashIs(states, events);
    hide *;
    var m, a, s := 2 * |events| + 1, Expected(events), states[|events|];
    RunOk(c, space, states, events);
    StateIsSafe(c, space, s, Intact(states, events), a, m);
    StartReads(c, space, DiskOf(s), a, m, key);
  }

  lemma MayCrashIs(states: seq<State>, events: seq<Event>)
    requires |states| == |events| + 1 && MayCrash(states, events)
    ensures states[|events|].Running? ==> Intact(states, events) && ListsEntries(states[|events|].process.tables)
  {
    hide Intact, ListsEntries;
  }

  /** Whenever the process of a run is up, it serves the expected map. */
  lemma RunServes(c: Config, space: set<bytes>, states: seq<State>, events: seq<Event>)
    requires ConfigOk(c, space) && IsRun(c, space, states, events) && 2 * |events| + 1 < TWO_64
    requires |states| == |events| + 1 && states[|events|].Running?
    ensures Serves(c, space, states[|events|].process, Expected(events), 2 * |events| + 1)
  {
    hide *;
    RunOk(c, space, states, events);
    RunningParts(c, space, states[|events|].process, Intact(states, events), Expected(events), 2 * |events| + 1);
  }

  /**
   * Live reads over whole runs, with either deletion loop: whenever the process runs, a GET reports a read failure
   * if the key's newest word may be in the one file the loop as written deletes, and otherwise answers as the
   * plain map, across any interleaving of flushes, merges that leave anything or nothing, crashes and restarts.
   */
  lemma LiveReadsExactly(c: Config, space: set<bytes>, states: seq<State>, events: seq<Event>, key: bytes)
    requires ConfigOk(c, space) && IsRun(c, space, states, events) && 2 * |events| + 1 < TWO_64
    requires |states| == |events| + 1 && states[|events|].Running?
    ensures var p := states[|events|].process;
            && ReadKey(p, key) == (if Lost(p, key) then Error else Answer(Expected(events), key))
            && (ReadKey(p, key) == Answer(Expected(events), key) <==> !Lost(p, key))
  {
    hide *;
    RunServes(c, space, states, events);
    ReadsExactly(c, space, states[|events|].process, Expected(events), 2 * |events| + 1, key);
    AnswerIsNoError(Expected(events), key);
  }

  /** With the intended loop every GET of every run is the plain map's. */
  lemma LiveReadsAgree(c: Config, space: set<bytes>, states: seq<State>, events: seq<Event>, key: bytes)
    requires ConfigOk(c, space) && IsRun(c, space, states, events) && 2 * |events| + 1 < TWO_64
    requires c.deletion.AsIntended? && |states| == |events| + 1 && states[|events|].Running?
    ensures ReadKey(states[|events|].process, key) == Answer(Expected(events), key)
  {
    hide *;
    var m, a, p := 2 * |events| + 1, Expected(events), states[|events|].process;
    RunServes(c, space, states, events);
    IntendedIsPresent(c, space, p, a, m);
    ReadsAgree(c, space, p, a, m, key);
  }

  /**
   * A write of a running process reports success unless it flushes, has enough tables to merge and finds one
   * missing; with the intended loop it always does.
   */
  lemma WritesAreAcknowledged(c: Config, space: set<bytes>, states: seq<State>, events: seq<Event>, r: Record, flush: bool)
    requires ConfigOk(c, space) && IsRun(c, space, states, events) && 2 * |events| + 3 < TWO_64
    requires |states| == |events| + 1 && states[|events|].Running? && Storable(space, r)
    ensures var p := states[|events|].process;
            Command(c, p, r, flush).ok
            <==> (flush && |p.tables| + 1 >= c.compactionThreshold && |p.tables| + 1 >= 2
                  ==> AllPresent(p.disk.files, p.tables))
    ensures c.deletion.AsIntended? ==> Command(c, states[|events|].process, r, flush).ok
  {
    hide *;
    var m, a, p := 2 * |events| + 1, Expected(events), states[|events|].process;
    RunServes(c, space, states, events);
    LiveCommand(c, space, p, r, flush, a, m);
    if c.deletion.AsIntended? {
      IntendedIsPresent(c, space, p, a, m);
    }
  }

  // ---------------------------------------------------------------------------
  // What a crash may leave
  // ---------------------------------------------------------------------------

  lemma MakeCrash(c: Config, p: Process, r: Record, flush: bool, at: nat, d: Image)
    requires at <= |Command(c, p, r, flush).trace| && d == DiskAt(p.disk, Command(c, p, r, flush).trace, at)
    ensures Step(c, Running(p), CrashInCommand(r, flush, at), Down(d))
  {
    hide Command, DiskAt;
  }

  lemma StateAt(d: Image, s: seq<Image>, t: seq<Image>, u: seq<Image>, j: nat)
    requires j < |t|
    ensures |s| + 1 + j <= |s + t + u| && DiskAt(d, s + t + u, |s| + 1 + j) == t[j]
  {
  }

  /** A crash can leave the record's first j bytes at the end of the log, for every j. */
  lemma TornRecordReached(c: Config, p: Process, r: Record, flush: bool, j: nat)
    requires j <= |RecordBytes(r)|
    ensures Step(c, Running(p), CrashInCommand(r, flush, j), Down(p.disk.(wal := p.disk.wal + RecordBytes(r)[..j])))
  {
    hide *;
    WriteIs(c, p, r, flush);
    LogWriteSteps(p, r);
    var x, y := LogWrite(p, r), Flush(c, LogWrite(p, r).process);
    var rest := if flush then y.trace + MaybeCompact(c, y.process).trace else [];
    var trace := Command(c, p, r, flush).trace;
    assert trace == x.trace + rest;
    EarlyState(p.disk, x.trace, rest, j);
    FirstStates(p.disk, x.trace, j);
    assert p.disk.wal + RecordBytes(r)[..0] == p.disk.wal;
    MakeCrash(c, p, r, flush, j, p.disk.(wal := p.disk.wal + RecordBytes(r)[..j]));
  }

  lemma FirstStates(d: Image, trace: seq<Image>, j: nat)
    requires j <= |trace|
    ensures DiskAt(d, trace, j) == if j == 0 then d else trace[j - 1]
  {
  }

  /** A crash can leave the first j bytes of the new table's file, for every j, behind a complete record. */
  lemma TornTableReached(c: Config, p: Process, r: Record, j: nat)
    requires j <= |TableBytes(Apply(p.data, r))|
    ensures Step(c, Running(p), CrashInCommand(r, true, |RecordBytes(r)| + 1 + j),
                 Down(Image(p.disk.wal + RecordBytes(r), p.disk.manifest,
                            p.disk.files[TableName(c.directory, p.next) := TableBytes(Apply(p.data, r))[..j]])))
  {
    hide *;
    WriteIs(c, p, r, true);
    LogWriteSteps(p, r);
    LogWriteParts(p, r);
    var x := LogWrite(p, r);
    var y := Flush(c, x.process);
    FlushPasses(c, x.process);
    StateAt(p.disk, x.trace, y.trace, MaybeCompact(c, y.process).trace, j);
    MakeCrash(c, p, r, true, |RecordBytes(r)| + 1 + j, y.trace[j]);
  }
}
