/**
 The run journal over all runs: appends that succeed or fail at any byte, process deaths, recovering
 reopens, snapshots that pin a prefix, and the bounded reader of a prefix.
*/
module RunJournals {
  import opened Options
  import opened Journals

  const CHECKPOINT := "checkpoint.json"
  const RESULT := "result.json"

  datatype Metadata = Metadata(runId: string, experimentId: string)

  datatype Snapshot = Snapshot(runId: string, experimentId: string, sequence: nat, eventHash: Option<Hash>, state: string)

  /** How one append ends: written and synced; an error after `written` bytes; an error of the sync,
      after all bytes; or an error of closing the descriptor, after the sync. The death of the process
      after `written` bytes leaves the same file as a write error there. */
  datatype Fault = NoFault | WriteFails(written: nat) | SyncFails | CloseFails

  /** The directory of a run, the open journal on it if there is one, and three facts of its history:
      which events have been acknowledged, which record is wholly written without having been, and the
      last record whose append was not acknowledged. */
  datatype Run = Run(file: Bytes, snapshots: map<string, Snapshot>, torn: seq<Bytes>,
                     events: seq<Event>, active: bool,
                     acknowledged: seq<Event>, ahead: Option<Event>, attempted: Option<Event>)

  datatype OpenError = Locked | BrokenJournal(line: nat) | BadCheckpoint

  datatype Action =
    | DoAppend(body: Body, fault: Fault)
    | DoSnapshot(name: string, state: string, completed: bool)
    | DoDie
    | DoOpen
    | DoOpenDies

  const EMPTY_RUN := Run([], map[], [], [], false, [], None, None)

  function Record(c: Codec, events: seq<Event>, body: Body): Event {
    Event(|events| + 1, LastHash(c, events), body)
  }

  function Line(c: Codec, e: Event): Bytes {
    c.encode(e) + [NEWLINE]
  }

  /** The journal is open and the record fits both size limits. */
  predicate Accepts(c: Codec, s: Run, body: Body) {
    var line := Line(c, Record(c, s.events, body));
    s.active && |line| <= MAX_EVENT_BYTES && |s.file| + |line| <= MAX_JOURNAL_BYTES
  }

  /** The append leaves the whole line in the file. */
  predicate Whole(c: Codec, s: Run, body: Body, fault: Fault) {
    fault.WriteFails? ==> fault.written >= |Line(c, Record(c, s.events, body))|
  }

  function Append(c: Codec, s: Run, body: Body, fault: Fault): Run {
    if !Accepts(c, s, body) then s
    else
      var record := Record(c, s.events, body);
      var line := Line(c, record);
      if fault.NoFault? then
        s.(file := s.file + line, events := s.events + [record], acknowledged := s.acknowledged + [record])
      else if Whole(c, s, body, fault) then
        s.(file := s.file + line, active := fault.CloseFails?, ahead := Some(record), attempted := Some(record))
      else
        s.(file := s.file + line[..fault.written], active := false, attempted := Some(record))
  }

  /** A snapshot replaces the file of its name atomically, or leaves it alone. */
  function WriteSnapshot(c: Codec, meta: Metadata, s: Run, name: string, state: string, completed: bool): Run {
    if !s.active || !completed then s
    else s.(snapshots := s.snapshots[name := Snapshot(meta.runId, meta.experimentId, |s.events|, LastHash(c, s.events), state)])
  }

  /** The snapshot belongs to this run and names the line it was written after. */
  predicate Fits(c: Codec, meta: Metadata, snapshot: Snapshot, events: seq<Event>) {
    && snapshot.runId == meta.runId && snapshot.experimentId == meta.experimentId
    && snapshot.sequence <= |events|
    && snapshot.eventHash == LastHash(c, events[..snapshot.sequence])
  }

  /** Opening for writing: the file must read back, the checkpoint must fit, and a torn line is kept
      aside and cut off. */
  function Open(c: Codec, meta: Metadata, s: Run): Result<Run, OpenError> {
    if s.active then Err(Locked)
    else
      match Parsed(c, s.file)
      case Err(n) => Err(BrokenJournal(n))
      case Ok((events, tail)) =>
        if CHECKPOINT in s.snapshots && !Fits(c, meta, s.snapshots[CHECKPOINT], events) then Err(BadCheckpoint)
        else
          Ok(s.(file := if |tail| <= |s.file| then s.file[..|s.file| - |tail|] else [],
                torn := if tail == [] then s.torn else s.torn + [tail],
                events := events, active := true, acknowledged := events, ahead := None, attempted := None))
  }

  function After(c: Codec, meta: Metadata, s: Run, a: Action): Run {
    match a
    case DoAppend(body, fault) => Append(c, s, body, fault)
    case DoSnapshot(name, state, completed) => WriteSnapshot(c, meta, s, name, state, completed)
    case DoDie => s.(active := false)
    case DoOpen => if Open(c, meta, s).Ok? then Open(c, meta, s).value else s
    case DoOpenDies => if Open(c, meta, s).Ok? then s.(torn := Open(c, meta, s).value.torn) else s
  }

  function AfterAll(c: Codec, meta: Metadata, s: Run, actions: seq<Action>): Run
    decreases actions
  {
    if actions == [] then s else AfterAll(c, meta, After(c, meta, s, actions[0]), actions[1..])
  }

  /** The acknowledged events and the record that is wholly written besides. */
  function OnDisk(s: Run): seq<Event> {
    s.acknowledged + if s.ahead.Some? then [s.ahead.value] else []
  }

  /** The file holds the acknowledged events, and besides them at most one record that was written whole,
      and, if the journal is closed, a first part of the line of a record that it will never write
      behind. Every snapshot names a prefix of the acknowledged events. */
  ghost predicate Sound(c: Codec, meta: Metadata, s: Run) {
    && |s.file| <= MAX_JOURNAL_BYTES
    && (forall name :: name in s.snapshots ==> Fits(c, meta, s.snapshots[name], s.acknowledged))
    && (s.active ==> s.events == s.acknowledged)
    && (Recorded(c, s.file, OnDisk(s), []) || (!s.active && s.attempted.Some? && TornOff(c, s.file, OnDisk(s), s.attempted.value)))
  }

  ghost predicate TornOff(c: Codec, file: Bytes, events: seq<Event>, e: Event) {
    exists piece :: piece <= c.encode(e) && Recorded(c, file, events, piece)
  }

  /** An open journal that knows less than its file holds writes a whole record. */
  predicate Breaks(c: Codec, s: Run, a: Action) {
    a.DoAppend? && s.ahead.Some? && Accepts(c, s, a.body) && Whole(c, s, a.body, a.fault)
  }

  predicate NeverBreaks(c: Codec, meta: Metadata, s: Run, actions: seq<Action>)
    decreases actions
  {
    actions != [] ==> !Breaks(c, s, actions[0]) && NeverBreaks(c, meta, After(c, meta, s, actions[0]), actions[1..])
  }

  lemma FitsLonger(c: Codec, meta: Metadata, snapshot: Snapshot, events: seq<Event>, more: seq<Event>)
    requires Fits(c, meta, snapshot, events) && events <= more
    ensures Fits(c, meta, snapshot, more)
  {
    assert more[..snapshot.sequence] == events[..snapshot.sequence];
  }

  /** The record an open journal writes follows its events. */
  lemma RecordFollows(c: Codec, s: Run, body: Body)
    requires Lawful(c) && Recorded(c, s.file, s.events, []) && Accepts(c, s, body)
    ensures var record := Record(c, s.events, body);
            && Follows(c, s.events, record) && NEWLINE !in c.encode(record)
            && Recorded(c, s.file + Line(c, record), s.events + [record], [])
  {
    var record := Record(c, s.events, body);
    assert c.parse(c.encode(record)) == Some(record);
    ChainGrows(c, s.events, record);
    EncodeAllOne(c, s.events, record);
    assert s.file + Line(c, record) == EncodeAll(c, s.events + [record]) + [];
  }

  /** A line cut short anywhere is a torn one. */
  lemma CutIsTorn(c: Codec, file: Bytes, events: seq<Event>, e: Event, written: nat)
    requires Lawful(c) && Recorded(c, file, events, []) && written < |Line(c, e)|
    ensures TornOff(c, file + Line(c, e)[..written], events, e)
  {
    var piece := Line(c, e)[..written];
    assert c.parse(c.encode(e)) == Some(e);
    assert piece == c.encode(e)[..written];
    assert file + piece == EncodeAll(c, events) + piece;
    assert Recorded(c, file + piece, events, piece);
  }

  lemma AppendKeepsSound(c: Codec, meta: Metadata, s: Run, body: Body, fault: Fault)
    requires Lawful(c) && Sound(c, meta, s) && !Breaks(c, s, DoAppend(body, fault))
    ensures Sound(c, meta, Append(c, s, body, fault))
    ensures s.acknowledged <= Append(c, s, body, fault).acknowledged
  {
    if Accepts(c, s, body) {
      var record, t := Record(c, s.events, body), Append(c, s, body, fault);
      if Whole(c, s, body, fault) {
        assert OnDisk(s) == s.events;
        RecordFollows(c, s, body);
        assert OnDisk(t) == s.events + [record];
        forall name | name in s.snapshots ensures Fits(c, meta, s.snapshots[name], t.acknowledged) {
          FitsLonger(c, meta, s.snapshots[name], s.acknowledged, t.acknowledged);
        }
      } else {
        CutIsTorn(c, s.file, OnDisk(s), record, fault.written);
      }
    }
  }

  /** An append without a fault acknowledges the given body, as the next event, and its line stands in the
      file. */
  lemma AppendedIsKept(c: Codec, meta: Metadata, s: Run, body: Body)
    requires Sound(c, meta, s) && Accepts(c, s, body)
    ensures var t := Append(c, s, body, NoFault);
            && t.active && t.acknowledged == t.events && |t.events| == |s.acknowledged| + 1 && s.acknowledged <= t.events
            && var e := t.events[|s.acknowledged|];
               e.body == body && e.sequence == |s.acknowledged| + 1 && t.file == s.file + (c.encode(e) + [NEWLINE])
  {
  }

  /** Opening loses no byte: what is cut off the file is a torn line, which is kept aside; a checkpoint that
      does not fit is refused. */
  lemma OpenLosesNoByte(c: Codec, meta: Metadata, s: Run)
    requires Lawful(c) && Open(c, meta, s).Ok?
    ensures !s.active && exists tail :: CutOff(s, Open(c, meta, s).value, tail)
    ensures var t := Open(c, meta, s).value;
            t.snapshots == s.snapshots && (CHECKPOINT in s.snapshots ==> Fits(c, meta, s.snapshots[CHECKPOINT], t.events))
  {
    var (events, tail) := Parsed(c, s.file).value;
    ParsedExactly(c, s.file, events, tail);
    assert CutOff(s, Open(c, meta, s).value, tail);
  }

  ghost predicate CutOff(s: Run, t: Run, tail: Bytes) {
    NEWLINE !in tail && s.file == t.file + tail && t.torn == s.torn + if tail == [] then [] else [tail]
  }

  /** After any sound history an inactive run can be opened for writing: nothing that was acknowledged
      is missing, and nothing is there besides it but the one record that was written whole. */
  lemma OpenRecovers(c: Codec, meta: Metadata, s: Run)
    requires Lawful(c) && Sound(c, meta, s) && !s.active
    ensures Open(c, meta, s).Ok?
    ensures var t := Open(c, meta, s).value;
            && Sound(c, meta, t) && t.active && t.file == EncodeAll(c, t.events) && t.events == OnDisk(s)
            && forall name :: name in t.snapshots ==> Fits(c, meta, t.snapshots[name], t.events)
  {
    var events, tail := OnDisk(s), [];
    if !Recorded(c, s.file, events, []) {
      tail :| tail <= c.encode(s.attempted.value) && Recorded(c, s.file, events, tail);
    }
    ParsedExactly(c, s.file, events, tail);
    forall name | name in s.snapshots ensures Fits(c, meta, s.snapshots[name], events) {
      FitsLonger(c, meta, s.snapshots[name], s.acknowledged, events);
    }
    var t := Open(c, meta, s).value;
    assert t.file == EncodeAll(c, events);
    assert t.file == EncodeAll(c, events) + [] && OnDisk(t) == events;
  }

  lemma StepKeepsSound(c: Codec, meta: Metadata, s: Run, a: Action)
    requires Lawful(c) && Sound(c, meta, s) && !Breaks(c, s, a)
    ensures Sound(c, meta, After(c, meta, s, a))
    ensures s.acknowledged <= After(c, meta, s, a).acknowledged
  {
    match a {
      case DoAppend(body, fault) => AppendKeepsSound(c, meta, s, body, fault);
      case DoSnapshot(name, state, completed) => assert s.events[..|s.events|] == s.events;
      case DoDie =>
      case DoOpen => if !s.active { OpenRecovers(c, meta, s); }
      case DoOpenDies =>
    }
  }

  /** Over every interleaving of appends that succeed, fail or are cut short at any byte, snapshots,
      deaths and reopens, unless a journal writes a record whole after failing to close the file: the
      file stays sound and nothing acknowledged is ever lost. */
  lemma {:induction false} EveryRunIsSound(c: Codec, meta: Metadata, s: Run, actions: seq<Action>)
    requires Lawful(c) && Sound(c, meta, s) && NeverBreaks(c, meta, s, actions)
    ensures Sound(c, meta, AfterAll(c, meta, s, actions))
    ensures s.acknowledged <= AfterAll(c, meta, s, actions).acknowledged
    decreases actions
  {
    if actions != [] {
      StepKeepsSound(c, meta, s, actions[0]);
      EveryRunIsSound(c, meta, After(c, meta, s, actions[0]), actions[1..]);
    }
  }

  /** Starting from a newly created run: whatever happened, what the next open reads is what was
      acknowledged, or that and the single record that was written whole without being; unless closing
      the file ever failed, that is the last one attempted. */
  lemma CrashSafety(c: Codec, meta: Metadata, actions: seq<Action>)
    requires Lawful(c) && NeverBreaks(c, meta, EMPTY_RUN, actions)
    ensures var s := AfterAll(c, meta, EMPTY_RUN, actions).(active := false);
            && Open(c, meta, s).Ok?
            && var t := Open(c, meta, s).value;
               && t.events == OnDisk(s)
               && (NoCloseFault(actions) ==>
                     t.events == s.acknowledged || (s.attempted.Some? && t.events == s.acknowledged + [s.attempted.value]))
  {
    assert EncodeAll(c, []) + [] == [];
    EveryRunIsSound(c, meta, EMPTY_RUN, actions);
    var s := AfterAll(c, meta, EMPTY_RUN, actions).(active := false);
    OpenRecovers(c, meta, s);
    if NoCloseFault(actions) {
      AheadIsLast(c, meta, EMPTY_RUN, actions);
    }
  }

  predicate NoCloseFault(actions: seq<Action>) {
    forall a :: a in actions && a.DoAppend? ==> !a.fault.CloseFails?
  }

  /** What is ahead of a journal is the last record attempted, and of a closed one, unless closing fails. */
  predicate LastAhead(s: Run) {
    s.ahead.Some? ==> !s.active && s.ahead == s.attempted
  }

  /** Without that fault no journal ever knows less than its file holds. */
  lemma {:induction false} AheadIsLast(c: Codec, meta: Metadata, s: Run, actions: seq<Action>)
    requires NoCloseFault(actions) && LastAhead(s)
    ensures LastAhead(AfterAll(c, meta, s, actions)) && NeverBreaks(c, meta, s, actions)
    decreases actions
  {
    if actions != [] {
      assert actions[0] in actions;
      AheadIsLast(c, meta, After(c, meta, s, actions[0]), actions[1..]);
    }
  }

  /** An open journal pins every snapshot written so far: whatever happens afterwards, the line that
      the snapshot names stays, and so does everything before it. */
  lemma SnapshotPinsHistory(c: Codec, meta: Metadata, s: Run, actions: seq<Action>, name: string)
    requires Lawful(c) && Sound(c, meta, s) && name in s.snapshots && NeverBreaks(c, meta, s, actions)
    ensures var n, later := s.snapshots[name].sequence, AfterAll(c, meta, s, actions).(active := false);
            && Open(c, meta, later).Ok?
            && var events := Open(c, meta, later).value.events;
               n <= |s.acknowledged| && n <= |events| && events[..n] == s.acknowledged[..n]
               && Fits(c, meta, s.snapshots[name], events)
  {
    EveryRunIsSound(c, meta, s, actions);
    RecoversAcknowledged(c, meta, AfterAll(c, meta, s, actions));
    var events := Open(c, meta, AfterAll(c, meta, s, actions).(active := false)).value.events;
    FitsLonger(c, meta, s.snapshots[name], s.acknowledged, events);
  }

  /** A completed write on an open journal stores the given state under its name, and names the last event:
      every valid chain that the snapshot fits begins with all events acknowledged then. */
  lemma SnapshotNamesAllAcknowledged(c: Codec, meta: Metadata, s: Run, name: string, state: string, chain: seq<Event>)
    requires Lawful(c) && Sound(c, meta, s) && s.active
    ensures var t := WriteSnapshot(c, meta, s, name, state, true);
            && t == s.(snapshots := t.snapshots) && t.snapshots.Keys == s.snapshots.Keys + {name}
            && (forall other :: other in s.snapshots && other != name ==> t.snapshots[other] == s.snapshots[other])
            && t.snapshots[name].state == state && Fits(c, meta, t.snapshots[name], s.acknowledged)
            && (ValidChain(c, chain) && Fits(c, meta, t.snapshots[name], chain) ==> s.acknowledged <= chain)
  {
    var t := WriteSnapshot(c, meta, s, name, state, true);
    assert s.events[..|s.events|] == s.events;
    if ValidChain(c, chain) && Fits(c, meta, t.snapshots[name], chain) {
      SoundChain(c, meta, s);
      SnapshotDeterminesPrefix(c, meta, t.snapshots[name], s.acknowledged, chain);
    }
  }

  /** So does what every later open reads. */
  lemma LaterOpensReadAll(c: Codec, meta: Metadata, s: Run, name: string, state: string, actions: seq<Action>)
    requires Lawful(c) && Sound(c, meta, s) && s.active
    requires NeverBreaks(c, meta, WriteSnapshot(c, meta, s, name, state, true), actions)
    ensures var later := AfterAll(c, meta, WriteSnapshot(c, meta, s, name, state, true), actions).(active := false);
            Open(c, meta, later).Ok? && s.acknowledged <= Open(c, meta, later).value.events
  {
    var t := WriteSnapshot(c, meta, s, name, state, true);
    StepKeepsSound(c, meta, s, DoSnapshot(name, state, true));
    EveryRunIsSound(c, meta, t, actions);
    RecoversAcknowledged(c, meta, AfterAll(c, meta, t, actions));
  }

  /** A write that is not completed, or on a closed journal, changes nothing. */
  lemma OnlyCompletedWritesCount(c: Codec, meta: Metadata, s: Run, name: string, state: string, completed: bool)
    ensures WriteSnapshot(c, meta, s, name, state, completed) != s ==> s.active && completed
  {
  }

  /** What is acknowledged in a sound run is a valid chain. */
  lemma SoundChain(c: Codec, meta: Metadata, s: Run)
    requires Lawful(c) && Sound(c, meta, s)
    ensures ValidChain(c, s.acknowledged)
  {
    OpenRecovers(c, meta, s.(active := false));
    var t := Open(c, meta, s.(active := false)).value;
    assert t.events[..|s.acknowledged|] == s.acknowledged;
  }

  lemma RecoversAcknowledged(c: Codec, meta: Metadata, s: Run)
    requires Lawful(c) && Sound(c, meta, s)
    ensures Open(c, meta, s.(active := false)).Ok?
    ensures s.acknowledged <= Open(c, meta, s.(active := false)).value.events
  {
    OpenRecovers(c, meta, s.(active := false));
  }

  /** A snapshot that fits two valid chains gives them the same first part. */
  lemma SnapshotDeterminesPrefix(c: Codec, meta: Metadata, snapshot: Snapshot, a: seq<Event>, b: seq<Event>)
    requires Lawful(c) && ValidChain(c, a) && ValidChain(c, b)
    requires Fits(c, meta, snapshot, a) && Fits(c, meta, snapshot, b)
    ensures a[..snapshot.sequence] == b[..snapshot.sequence]
  {
    HashPinsPrefix(c, a, b, snapshot.sequence);
  }

  /** A whole line stands in the file that does not follow the lines before it. */
  ghost predicate Broken(c: Codec, file: Bytes) {
    exists chain, e, rest :: BrokenAt(c, file, chain, e, rest)
  }

  ghost predicate BrokenAt(c: Codec, file: Bytes, chain: seq<Event>, e: Event, rest: Bytes) {
    !Follows(c, chain, e) && file == EncodeAll(c, chain + [e]) + rest
  }

  /** Such a file is never read again. */
  lemma BrokenIsUnreadable(c: Codec, file: Bytes)
    requires Lawful(c) && Broken(c, file)
    ensures Parsed(c, file).Err?
  {
    var chain, e, rest :| BrokenAt(c, file, chain, e, rest);
    if Parsed(c, file).Ok? {
      var (events, tail) := Parsed(c, file).value;
      NotRecorded(c, file, chain, e, rest, events, tail);
      ParsedExactly(c, file, events, tail);
    }
  }

  lemma NotRecorded(c: Codec, file: Bytes, chain: seq<Event>, e: Event, rest: Bytes, events: seq<Event>, tail: Bytes)
    requires Lawful(c) && BrokenAt(c, file, chain, e, rest)
    ensures !Recorded(c, file, events, tail)
  {
    if NEWLINE !in tail && file == EncodeAll(c, events) + tail {
      FirstLines(c, chain + [e], rest, events, tail);
      BeginsInvalid(c, chain, e, events);
    }
  }

  lemma BeginsInvalid(c: Codec, chain: seq<Event>, e: Event, events: seq<Event>)
    requires !Follows(c, chain, e) && chain + [e] <= events
    ensures !ValidChain(c, events)
  {
    var n := |chain|;
    assert events[..n] == chain && events[n] == e;
    assert !Follows(c, events[..n], events[n]);
  }

  /** And nothing that is done to the run mends it. */
  lemma StepKeepsBroken(c: Codec, meta: Metadata, s: Run, a: Action)
    requires Lawful(c) && Broken(c, s.file)
    ensures Broken(c, After(c, meta, s, a).file)
  {
    BrokenIsUnreadable(c, s.file);
    if a.DoAppend? {
      var t := After(c, meta, s, a);
      var more := t.file[|s.file|..];
      assert t.file == s.file + more;
      var chain, e, rest :| BrokenAt(c, s.file, chain, e, rest);
      assert t.file == EncodeAll(c, chain + [e]) + (rest + more);
      assert BrokenAt(c, t.file, chain, e, rest + more);
    }
  }

  lemma {:induction false} BrokenForever(c: Codec, meta: Metadata, s: Run, actions: seq<Action>)
    requires Lawful(c) && Broken(c, s.file)
    ensures Broken(c, AfterAll(c, meta, s, actions).file)
    decreases actions
  {
    if actions != [] {
      StepKeepsBroken(c, meta, s, actions[0]);
      BrokenForever(c, meta, After(c, meta, s, actions[0]), actions[1..]);
    }
  }

  /** Writing a whole record behind one that the journal does not know of breaks the file: it repeats
      the number. */
  lemma BreaksIsBroken(c: Codec, meta: Metadata, s: Run, body: Body, fault: Fault)
    requires Lawful(c) && Sound(c, meta, s) && Breaks(c, s, DoAppend(body, fault))
    ensures Broken(c, Append(c, s, body, fault).file)
  {
    var chain, record := OnDisk(s), Record(c, s.events, body);
    EncodeAllOne(c, chain, record);
    assert |chain| == |s.events| + 1;
    var file := Append(c, s, body, fault).file;
    assert file == EncodeAll(c, chain + [record]) + [];
    assert BrokenAt(c, file, chain, record, []);
  }

  /** The journal's one weakness, exactly: an error of closing the descriptor leaves it open on a file
      that already holds the record. Over every sequence of actions, the run can be opened again if and
      only if no journal writes a record whole after that. */
  lemma {:induction false} RecoverableIffNeverBreaks(c: Codec, meta: Metadata, s: Run, actions: seq<Action>)
    requires Lawful(c) && Sound(c, meta, s)
    ensures Open(c, meta, AfterAll(c, meta, s, actions).(active := false)).Ok? <==> NeverBreaks(c, meta, s, actions)
    decreases actions
  {
    if actions == [] {
      OpenRecovers(c, meta, s.(active := false));
    } else if Breaks(c, s, actions[0]) {
      BreaksIsBroken(c, meta, s, actions[0].body, actions[0].fault);
      BrokenForever(c, meta, After(c, meta, s, actions[0]), actions[1..]);
      BrokenIsUnreadable(c, AfterAll(c, meta, s, actions).file);
    } else {
      StepKeepsSound(c, meta, s, actions[0]);
      RecoverableIffNeverBreaks(c, meta, After(c, meta, s, actions[0]), actions[1..]);
    }
  }

  /** In particular, of two appends of which the first is not closed: the next record ruins the run
      exactly if it is written whole; torn or absent, it does no harm. */
  lemma CloseFaultBreaksIffWritten(c: Codec, meta: Metadata, s: Run, first: Body, second: Body, written: nat)
    requires Lawful(c) && Sound(c, meta, s) && s.active && s.ahead.None? && Accepts(c, s, first)
    requires Accepts(c, Append(c, s, first, CloseFails), second)
    ensures var t := Append(c, Append(c, s, first, CloseFails), second, WriteFails(written));
            Open(c, meta, t).Ok? <==> written < |Line(c, Record(c, s.events, second))|
  {
    var actions := [DoAppend(first, CloseFails), DoAppend(second, WriteFails(written))];
    RecoverableIffNeverBreaks(c, meta, s, actions);
    var one := Append(c, s, first, CloseFails);
    assert actions[1..] == [actions[1]] && actions[1..][1..] == [];
    assert AfterAll(c, meta, one, actions[1..]) == Append(c, one, second, WriteFails(written));
    assert NeverBreaks(c, meta, one, actions[1..]) <==> !Breaks(c, one, actions[1]);
  }

  /** The lines of some events begin whatever is read from a file that begins with them. */
  lemma {:induction false} FirstLines(c: Codec, a: seq<Event>, rest: Bytes, b: seq<Event>, tail: Bytes)
    requires Lawful(c) && NEWLINE !in tail && EncodeAll(c, a) + rest == EncodeAll(c, b) + tail
    ensures a <= b
    decreases |a|
  {
    if a != [] {
      var x := c.encode(a[0]) + [NEWLINE];
      assert EncodeAll(c, a) + rest == x + (EncodeAll(c, a[1..]) + rest);
      assert c.parse(c.encode(a[0])) == Some(a[0]);
      assert (EncodeAll(c, a) + rest)[|x| - 1] == NEWLINE;
      assert b == [] ==> EncodeAll(c, b) + tail == tail;
      if b != [] {
        var y := c.encode(b[0]) + [NEWLINE];
        assert EncodeAll(c, b) + tail == y + (EncodeAll(c, b[1..]) + tail);
        assert c.parse(c.encode(b[0])) == Some(b[0]);
        SameFirstLine(c.encode(a[0]), EncodeAll(c, a[1..]) + rest, c.encode(b[0]), EncodeAll(c, b[1..]) + tail);
        FirstLines(c, a[1..], rest, b[1..], tail);
        assert a == [a[0]] + a[1..] && b == [b[0]] + b[1..];
      }
    }
  }

  lemma SameFirstLine(x: Bytes, p: Bytes, y: Bytes, q: Bytes)
    requires NEWLINE !in x && NEWLINE !in y && x + [NEWLINE] + p == y + [NEWLINE] + q
    ensures x == y && p == q
  {
    SplitLinesFirst(x, p);
    SplitLinesFirst(y, q);
    assert ([x] + SplitLines(p))[0] == ([y] + SplitLines(q))[0];
    assert p == (x + [NEWLINE] + p)[|x| + 1..] && q == (y + [NEWLINE] + q)[|y| + 1..];
  }

  /** The bounded reader: the events of the whole lines among the first `limit` bytes. */
  datatype Prefix = Prefix(events: seq<Event>, bytesRead: nat, truncated: bool)

  function LastNewline(content: Bytes): (n: nat)
    ensures n <= |content| && (n == 0 || content[n - 1] == NEWLINE)
    ensures forall i :: n <= i < |content| ==> content[i] != NEWLINE
  {
    if content == [] then 0
    else if content[|content| - 1] == NEWLINE then |content|
    else LastNewline(content[..|content| - 1])
  }

  function ReadPrefix(c: Codec, file: Bytes, limit: nat): Result<Prefix, nat> {
    var truncated := |file| > limit;
    var content := if truncated then file[..limit] else file;
    match Parsed(c, if truncated then content[..LastNewline(content)] else content)
    case Err(n) => Err(n)
    case Ok((events, _)) => Ok(Prefix(events, |content|, truncated))
  }

  /** The check of a checkpoint against a prefix: only what the prefix reaches is compared. */
  predicate FitsPrefix(c: Codec, meta: Metadata, snapshot: Snapshot, events: seq<Event>) {
    && snapshot.runId == meta.runId && snapshot.experimentId == meta.experimentId
    && (snapshot.sequence <= |events| ==> snapshot.eventHash == LastHash(c, events[..snapshot.sequence]))
  }

  /** For every limit, a summary of a readable journal succeeds with a prefix of its events, the
      longest one whose lines fit the limit, and accepts every checkpoint that fits the whole. */
  lemma SummaryIsLongestPrefix(c: Codec, meta: Metadata, file: Bytes, all: seq<Event>, tail: Bytes, limit: nat)
    requires Lawful(c) && Recorded(c, file, all, tail)
    ensures ReadPrefix(c, file, limit).Ok?
    ensures var r := ReadPrefix(c, file, limit).value;
            && r.events <= all && r.bytesRead == (if limit < |file| then limit else |file|) && (r.truncated <==> limit < |file|)
            && |EncodeAll(c, r.events)| <= r.bytesRead
            && (|r.events| < |all| ==> r.truncated && limit < |EncodeAll(c, all[..|r.events| + 1])|)
            && forall snapshot :: FitsPrefix(c, meta, snapshot, r.events) <==> FitsAsFarAs(c, meta, snapshot, all, |r.events|)
  {
    if limit < |file| {
      var n := CutPrefix(c, file, all, tail, limit);
      PrefixFits(c, meta, all, n);
    } else {
      ParsedExactly(c, file, all, tail);
      assert all[..|all|] == all;
      PrefixFits(c, meta, all, |all|);
    }
  }

  lemma CutPrefix(c: Codec, file: Bytes, all: seq<Event>, tail: Bytes, limit: nat) returns (n: nat)
    requires Lawful(c) && Recorded(c, file, all, tail) && limit < |file|
    ensures n <= |all| && ReadPrefix(c, file, limit) == Ok(Prefix(all[..n], limit, true))
    ensures |EncodeAll(c, all[..n])| <= limit && (n < |all| ==> limit < |EncodeAll(c, all[..n + 1])|)
  {
    var piece;
    n, piece := TakeRecorded(c, all, tail, limit);
    var whole := EncodeAll(c, all[..n]);
    var content := file[..limit];
    assert content == whole + piece;
    EncodeAllEnds(c, all[..n]);
    LastNewlineAfter(whole, piece);
    assert content[..|whole|] == whole + [];
    ChainPrefix(c, all, n);
    ParsedExactly(c, content[..|whole|], all[..n], []);
  }

  /** The snapshot is of this run, and fits the whole journal or names a line that was not read. */
  predicate FitsAsFarAs(c: Codec, meta: Metadata, snapshot: Snapshot, all: seq<Event>, read: nat) {
    && snapshot.runId == meta.runId && snapshot.experimentId == meta.experimentId
    && (Fits(c, meta, snapshot, all) || snapshot.sequence > read)
  }

  lemma PrefixFits(c: Codec, meta: Metadata, all: seq<Event>, n: nat)
    requires n <= |all|
    ensures forall snapshot :: FitsPrefix(c, meta, snapshot, all[..n]) <==> FitsAsFarAs(c, meta, snapshot, all, n)
  {
    forall snapshot: Snapshot ensures FitsPrefix(c, meta, snapshot, all[..n]) <==> FitsAsFarAs(c, meta, snapshot, all, n) {
      if snapshot.sequence <= n {
        assert all[..n][..snapshot.sequence] == all[..snapshot.sequence];
      }
    }
  }

  lemma {:induction false} LastNewlineAfter(whole: Bytes, piece: Bytes)
    requires NEWLINE !in piece && (whole == [] || whole[|whole| - 1] == NEWLINE)
    ensures LastNewline(whole + piece) == |whole|
  {
    if piece == [] {
      assert whole + piece == whole;
    } else {
      assert (whole + piece)[..|whole + piece| - 1] == whole + piece[..|piece| - 1];
      LastNewlineAfter(whole, piece[..|piece| - 1]);
    }
  }

  lemma {:induction false} EncodeAllEnds(c: Codec, events: seq<Event>)
    ensures events != [] ==> EncodeAll(c, events) != [] && EncodeAll(c, events)[|EncodeAll(c, events)| - 1] == NEWLINE
    ensures events == [] ==> EncodeAll(c, events) == []
  {
    if |events| > 1 {
      EncodeAllEnds(c, events[1..]);
    }
  }
}
