/**
 The journal objects themselves: a run directory on disk and the journal outcome on it, each method
 proved to take exactly the step that the run model gives it.
*/
module JournalStore {
  import opened Options
  import opened Journals
  import RunJournals

  class RunDirectory {
    var file: Bytes
    var snapshots: map<string, RunJournals.Snapshot>
    var torn: seq<Bytes>
    ghost var acknowledged: seq<Event>
    ghost var ahead: Option<Event>
    ghost var attempted: Option<Event>

    constructor ()
      ensures At([], false) == RunJournals.EMPTY_RUN
    {
      file, snapshots, torn, acknowledged, ahead, attempted := [], map[], [], [], None, None;
    }

    /** The run as it is with this journal state on top of it. */
    ghost function At(events: seq<Event>, active: bool): RunJournals.Run
      reads this
    {
      RunJournals.Run(file, snapshots, torn, events, active, acknowledged, ahead, attempted)
    }
  }

  class RunJournal {
    const codec: Codec
    const meta: RunJournals.Metadata
    const directory: RunDirectory
    var events: seq<Event>
    var active: bool

    constructor (codec: Codec, meta: RunJournals.Metadata, directory: RunDirectory, events: seq<Event>)
      ensures this.codec == codec && this.meta == meta && this.directory == directory
      ensures this.events == events && active
    {
      this.codec, this.meta, this.directory, this.events, active := codec, meta, directory, events, true;
    }

    ghost function State(): RunJournals.Run
      reads this, directory
    {
      directory.At(events, active)
    }

    method Close()
      modifies this`active
      ensures State() == RunJournals.After(codec, meta, old(State()), RunJournals.DoDie)
    {
      active := false;
    }

    /** Appends one record; the record is returned exactly when it is acknowledged. */
    method Append(body: Body, fault: RunJournals.Fault) returns (appended: Option<Event>)
      modifies this, directory
      ensures State() == RunJournals.Append(codec, old(State()), body, fault)
      ensures var line := codec.encode(RunJournals.Record(codec, old(events), body)) + [NEWLINE];
              appended.Some? <==> old(active) && fault.NoFault?
                                  && |line| <= MAX_EVENT_BYTES && |old(directory.file)| + |line| <= MAX_JOURNAL_BYTES
      ensures appended == if RunJournals.Accepts(codec, old(State()), body) && fault.NoFault?
                          then Some(RunJournals.Record(codec, old(events), body)) else None
    {
      if !active {
        return None;
      }
      var previous := if events == [] then None else Some(Sha256(codec.encode(events[|events| - 1])));
      var record := Event(|events| + 1, previous, body);
      var encoded := codec.encode(record) + [NEWLINE];
      if |encoded| > MAX_EVENT_BYTES || |directory.file| + |encoded| > MAX_JOURNAL_BYTES {
        return None;
      }
      match fault {
        case WriteFails(written) =>
          directory.file := directory.file + encoded[..if written < |encoded| then written else |encoded|];
          directory.attempted := Some(record);
          if written >= |encoded| {
            directory.ahead := Some(record);
          }
          active := false;
          return None;
        case SyncFails =>
          directory.file := directory.file + encoded;
          directory.ahead, directory.attempted := Some(record), Some(record);
          active := false;
          return None;
        case CloseFails =>
          directory.file := directory.file + encoded;
          directory.ahead, directory.attempted := Some(record), Some(record);
          return None;
        case NoFault =>
          directory.file := directory.file + encoded;
          events := events + [record];
          directory.acknowledged := directory.acknowledged + [record];
          appended := Some(record);
      }
    }

    method WriteSnapshot(name: string, state: string, completed: bool)
      modifies directory
      ensures State() == RunJournals.WriteSnapshot(codec, meta, old(State()), name, state, completed)
    {
      if active && completed {
        var hash := if events == [] then None else Some(Sha256(codec.encode(events[|events| - 1])));
        directory.snapshots := directory.snapshots[name :=
          RunJournals.Snapshot(meta.runId, meta.experimentId, |events|, hash, state)];
      }
    }

    method Checkpoint(state: string, completed: bool)
      modifies directory
      ensures State() == RunJournals.WriteSnapshot(codec, meta, old(State()), RunJournals.CHECKPOINT, state, completed)
    {
      WriteSnapshot(RunJournals.CHECKPOINT, state, completed);
    }

    method WriteResult(state: string, completed: bool)
      modifies directory
      ensures State() == RunJournals.WriteSnapshot(codec, meta, old(State()), RunJournals.RESULT, state, completed)
    {
      WriteSnapshot(RunJournals.RESULT, state, completed);
    }
  }

  /** Whether a snapshot belongs to the run and names the line it was written after. */
  method Matches(codec: Codec, meta: RunJournals.Metadata, snapshot: RunJournals.Snapshot, events: seq<Event>) returns (fits: bool)
    ensures fits == RunJournals.Fits(codec, meta, snapshot, events)
  {
    if snapshot.runId != meta.runId || snapshot.experimentId != meta.experimentId || snapshot.sequence > |events| {
      return false;
    }
    var expected := if snapshot.sequence > 0 then Some(Sha256(codec.encode(events[snapshot.sequence - 1]))) else None;
    fits := snapshot.eventHash == expected;
  }

  /** Opens a run for writing: reads it back, checks the checkpoint, saves a torn line and cuts it off. */
  method OpenRun(codec: Codec, meta: RunJournals.Metadata, directory: RunDirectory)
    returns (outcome: Result<RunJournal, RunJournals.OpenError>)
    requires Lawful(codec)
    modifies directory
    ensures var before := old(directory.At([], false));
            match RunJournals.Open(codec, meta, before)
            case Err(e) => outcome == Err(e) && directory.At([], false) == before
            case Ok(after) => outcome.Ok? && fresh(outcome.value) && outcome.value.directory == directory
                              && outcome.value.codec == codec && outcome.value.meta == meta
                              && outcome.value.State() == after
  {
    var parsed := ParseEvents(codec, directory.file);
    if parsed.Err? {
      return Err(RunJournals.BrokenJournal(parsed.error));
    }
    var (events, tail) := parsed.value;
    if RunJournals.CHECKPOINT in directory.snapshots {
      var fits := Matches(codec, meta, directory.snapshots[RunJournals.CHECKPOINT], events);
      if !fits {
        return Err(RunJournals.BadCheckpoint);
      }
    }
    ParsedExactly(codec, directory.file, events, tail);
    if tail != [] {
      directory.torn := directory.torn + [tail];
      directory.file := directory.file[..|directory.file| - |tail|];
    }
    directory.acknowledged, directory.ahead, directory.attempted := events, None, None;
    var journal := new RunJournal(codec, meta, directory, events);
    outcome := Ok(journal);
  }
}
