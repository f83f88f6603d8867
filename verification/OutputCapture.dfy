/**
 Capturing the output of a command within a bound. Whatever the order in which its pipes become
 readable, and whenever it is cancelled, times out or is drained, what is stored is the beginning of
 what was written, and bytes that were read are dropped only if the outcome says so.
*/
module OutputCapture {
  type Bytes = seq<bv8>

  const CHUNK: nat := 65536

  datatype Stream = Stdin | Stdout | Stderr

  datatype Outcome = Exited | Timeout | OutputLimit

  /** A stream that became ready, how many bytes the system then moves at most, and whether its other
      end is gone. */
  datatype Ready = Ready(stream: Stream, amount: nat, broken: bool)

  /** What one poll finds: the deadline passed or a cancellation, or streams that are ready. */
  datatype Poll = Expired | Selected(ready: seq<Ready>)

  /** All that is ever written to a pipe, how much of it was read, and what was stored. */
  datatype Pipe = Pipe(written: Bytes, taken: nat, stored: Bytes)
  {
    predicate Sound() {
      && |stored| <= taken <= |written|
      && stored == written[..|stored|]
    }

    /** Bytes were read that are not stored. */
    predicate Lossy() {
      |stored| < taken
    }
  }

  ghost predicate Captured(p: Pipe, q: Pipe, max: nat) {
    && p.Sound() && q.Sound() && |p.stored| + |q.stored| <= max
    && (p.Lossy() || q.Lossy() ==> |p.stored| + |q.stored| == max)
  }

  function Min(a: nat, b: nat): nat {
    if a < b then a else b
  }

  /** The next bytes read, none only at the end of what was written. */
  function Chunk(p: Pipe, amount: nat): (chunk: Bytes)
    requires p.Sound()
    ensures p.taken + |chunk| <= |p.written| && chunk == p.written[p.taken..p.taken + |chunk|]
    ensures chunk == [] <==> p.taken == |p.written|
  {
    p.written[p.taken..p.taken + Min(if amount == 0 then 1 else amount, |p.written| - p.taken)]
  }

  function Store(p: Pipe, chunk: Bytes, space: nat): Pipe {
    Pipe(p.written, p.taken + |chunk|, p.stored + chunk[..Min(space, |chunk|)])
  }

  /** More may have been read and stored since. */
  ghost predicate Later(before: Pipe, p: Pipe) {
    before.stored <= p.stored && before.taken <= p.taken
  }

  /** Storing what fits: the bound and the order are kept, and bytes are dropped exactly when more
      were read than there was space for. */
  lemma StoreKeepsCaptured(p: Pipe, q: Pipe, max: nat, amount: nat)
    requires Captured(p, q, max)
    ensures var space, chunk := max - (|p.stored| + |q.stored|), Chunk(p, amount);
            var p' := Store(p, chunk, space);
            && Captured(p', q, max)
            && (p'.Lossy() || q.Lossy() <==> p.Lossy() || q.Lossy() || |chunk| > space)
            && (|chunk| > space ==> p'.Lossy())
  {
    var space, chunk := max - (|p.stored| + |q.stored|), Chunk(p, amount);
    var kept := chunk[..Min(space, |chunk|)];
    if p.Lossy() || q.Lossy() {
      assert kept == [] && p.stored + kept == p.stored;
    } else {
      assert p.written[..p.taken] + kept == p.written[..p.taken + |kept|];
    }
  }

  /** What is open, how much of the input is written, and the two captured pipes. */
  datatype Flow = Flow(open: set<Stream>, offset: nat, stdout: Pipe, stderr: Pipe)

  ghost predicate FlowSound(s: Flow, max: nat, input: nat) {
    && Captured(s.stdout, s.stderr, max) && s.offset <= input
    && (Stdin in s.open <==> s.offset < input)
    && (Stdout !in s.open ==> s.stdout.taken == |s.stdout.written|)
    && (Stderr !in s.open ==> s.stderr.taken == |s.stderr.written|)
  }

  /** One ready stream: input is written, or a chunk is read, which ends the stream if it is empty. The
      flag says whether more was read than there was space for. */
  ghost function Moved(s: Flow, max: nat, input: nat, r: Ready): (Flow, bool) {
    if r.stream !in s.open then (s, false)
    else if r.stream == Stdin then
      var offset := if r.broken || s.offset > input then input else s.offset + Min(Min(r.amount, CHUNK), input - s.offset);
      (s.(offset := offset, open := if offset == input then s.open - {Stdin} else s.open), false)
    else
      var pipe, used := if r.stream == Stderr then s.stderr else s.stdout, |s.stdout.stored| + |s.stderr.stored|;
      var space := if used < max then max - used else 0;
      var chunk := if pipe.Sound() then Chunk(pipe, Min(r.amount, CHUNK)) else [];
      var t := if r.stream == Stderr then s.(stderr := Store(pipe, chunk, space)) else s.(stdout := Store(pipe, chunk, space));
      (t.(open := if chunk == [] then s.open - {r.stream} else s.open), |chunk| > space)
  }

  /** The streams one poll selected, until more is read than fits. */
  ghost function Served(s: Flow, max: nat, input: nat, ready: seq<Ready>): (Flow, bool)
    decreases |ready|
  {
    if ready == [] then (s, false)
    else
      var (t, over) := Moved(s, max, input, ready[0]);
      if over then (t, true) else Served(t, max, input, ready[1..])
  }

  /** How the loop over the polls ends. */
  datatype End = End(flow: Flow, outcome: Outcome)

  /** The polls, until every stream is closed, the deadline passes or more is read than fits. */
  ghost function Pumped(s: Flow, max: nat, input: nat, polls: seq<Poll>): End
    decreases |polls|
  {
    if s.open == {} then End(s, Exited)
    else if polls == [] || polls[0].Expired? then End(s, Timeout)
    else
      var (t, over) := Served(s, max, input, polls[0].ready);
      if over then End(t, OutputLimit) else Pumped(t, max, input, polls[1..])
  }

  ghost function Start(input: nat, out: Bytes, err: Bytes): Flow {
    Flow(if input > 0 then {Stdin, Stdout, Stderr} else {Stdout, Stderr}, 0, Pipe(out, 0, []), Pipe(err, 0, []))
  }

  /** How the loop ends that starts with nothing read. */
  ghost function Ending(max: nat, input: nat, out: Bytes, err: Bytes, polls: seq<Poll>): End {
    Pumped(Start(input, out, err), max, input, polls)
  }

  function Space(max: nat, used: nat): nat {
    if used < max then max - used else 0
  }

  /** What one read asks for, when so much space is left: never nothing. */
  function Asked(amount: nat, space: nat): nat {
    Min(amount, if Min(CHUNK, space) == 0 then 1 else Min(CHUNK, space))
  }

  /** A pipe read until it would block, its end, or more is read than fits beside what the other pipe
      stored. The flag says whether that was so; the first `k` reads are done. */
  ghost function Emptied(p: Pipe, other: nat, max: nat, amounts: seq<nat>, k: nat): (Pipe, bool)
    decreases |amounts| - k
  {
    var space := Space(max, |p.stored| + other);
    var chunk := if k < |amounts| && p.Sound() then Chunk(p, Asked(amounts[k], space)) else [];
    if chunk == [] then (p, false)
    else if |chunk| > space then (Store(p, chunk, space), true)
    else Emptied(Store(p, chunk, space), other, max, amounts, k + 1)
  }

  /** Both pipes, the second only if nothing was dropped of the first. */
  ghost function Drained(s: Flow, max: nat, outAmounts: seq<nat>, errAmounts: seq<nat>): (Flow, bool) {
    var (p, over) := Emptied(s.stdout, |s.stderr.stored|, max, outAmounts, 0);
    if over then (s.(stdout := p), true)
    else
      var (q, also) := Emptied(s.stderr, |p.stored|, max, errAmounts, 0);
      (s.(stdout := p, stderr := q), also)
  }

  /** A pipe that can be read to its end is: something is dropped exactly if more is left than fits, and
      otherwise all that is left is stored. */
  lemma {:induction false} DropsIffTooMuchLeft(p: Pipe, q: Pipe, max: nat, amounts: seq<nat>, k: nat)
    requires Captured(p, q, max) && |amounts| - k > |p.written| - p.taken
    ensures var (r, over), space := Emptied(p, |q.stored|, max, amounts, k), max - (|p.stored| + |q.stored|);
            && (over <==> |p.written| - p.taken > space)
            && (!over ==> r.taken == |p.written| && r.stored == p.stored + p.written[p.taken..])
    decreases |amounts| - k
  {
    var space := max - (|p.stored| + |q.stored|);
    var chunk := Chunk(p, Asked(amounts[k], space));
    EmptiedNext(p, |q.stored|, max, amounts, k);
    if chunk == [] {
      assert p.stored + p.written[p.taken..] == p.stored;
    } else if |chunk| <= space {
      StoredOn(p, q, max, Asked(amounts[k], space));
      DropsIffTooMuchLeft(Store(p, chunk, space), q, max, amounts, k + 1);
    }
  }

  /** A read that fits moves what it read from what is left to what is stored. */
  lemma StoredOn(p: Pipe, q: Pipe, max: nat, amount: nat)
    requires Captured(p, q, max) && |Chunk(p, amount)| <= max - (|p.stored| + |q.stored|)
    ensures var space, chunk := max - (|p.stored| + |q.stored|), Chunk(p, amount);
            var next := Store(p, chunk, space);
            && Captured(next, q, max) && next.written == p.written && next.taken == p.taken + |chunk|
            && max - (|next.stored| + |q.stored|) == space - |chunk|
            && next.stored + next.written[next.taken..] == p.stored + p.written[p.taken..]
  {
    StoreKeepsCaptured(p, q, max, amount);
    StoredWhole(p, Chunk(p, amount), max - (|p.stored| + |q.stored|));
  }

  lemma EmptiedNext(p: Pipe, other: nat, max: nat, amounts: seq<nat>, k: nat)
    requires p.Sound() && k < |amounts|
    ensures var space := Space(max, |p.stored| + other);
            var chunk := Chunk(p, Asked(amounts[k], space));
            Emptied(p, other, max, amounts, k)
            == if chunk == [] then (p, false)
               else if |chunk| > space then (Store(p, chunk, space), true)
               else Emptied(Store(p, chunk, space), other, max, amounts, k + 1)
  {
  }

  lemma StoredWhole(p: Pipe, chunk: Bytes, space: nat)
    requires p.taken + |chunk| <= |p.written| && chunk == p.written[p.taken..p.taken + |chunk|] && |chunk| <= space
    ensures var next := Store(p, chunk, space);
            |next.stored| == |p.stored| + |chunk| && next.stored + p.written[next.taken..] == p.stored + p.written[p.taken..]
  {
  }

  /** How much is left to be moved and closed. */
  ghost function Pending(s: Flow, input: nat): int {
    input - s.offset + |s.stdout.written| - s.stdout.taken + |s.stderr.written| - s.stderr.taken + |s.open|
  }

  /** The same pipes, with no more left than before, and less if a stream was closed. */
  ghost predicate Onward(s: Flow, t: Flow, input: nat) {
    && t.stdout.written == s.stdout.written && t.stderr.written == s.stderr.written
    && t.open <= s.open && Pending(t, input) <= Pending(s, input)
    && (t.open != s.open ==> Pending(t, input) < Pending(s, input))
  }

  ghost predicate LossyFlow(s: Flow) {
    s.stdout.Lossy() || s.stderr.Lossy()
  }

  /** The stream is open and something can be moved. */
  predicate Moves(s: Flow, r: Ready) {
    r.stream in s.open && r.amount > 0
  }

  ghost predicate MovesOn(s: Flow, max: nat, input: nat, r: Ready) {
    var (t, over) := Moved(s, max, input, r);
    && FlowSound(t, max, input) && Onward(s, t, input) && (LossyFlow(t) <==> over)
    && (Moves(s, r) ==> Pending(t, input) < Pending(s, input))
  }

  lemma MovedOnward(s: Flow, max: nat, input: nat, r: Ready)
    requires FlowSound(s, max, input) && !LossyFlow(s)
    ensures MovesOn(s, max, input, r)
  {
    if r.stream in s.open {
      match r.stream
      case Stdin => FedOnward(s, max, input, r);
      case Stdout => OutputOnward(s, max, input, r);
      case Stderr => ErrorsOnward(s, max, input, r);
    }
  }

  lemma FedOnward(s: Flow, max: nat, input: nat, r: Ready)
    requires FlowSound(s, max, input) && !LossyFlow(s) && r.stream == Stdin && Stdin in s.open
    ensures MovesOn(s, max, input, r)
  {
  }

  lemma OutputOnward(s: Flow, max: nat, input: nat, r: Ready)
    requires FlowSound(s, max, input) && !LossyFlow(s) && r.stream == Stdout && Stdout in s.open
    ensures MovesOn(s, max, input, r)
  {
    StoreKeepsCaptured(s.stdout, s.stderr, max, Min(r.amount, CHUNK));
  }

  lemma ErrorsOnward(s: Flow, max: nat, input: nat, r: Ready)
    requires FlowSound(s, max, input) && !LossyFlow(s) && r.stream == Stderr && Stderr in s.open
    ensures MovesOn(s, max, input, r)
  {
    StoreKeepsCaptured(s.stderr, s.stdout, max, Min(r.amount, CHUNK));
  }

  lemma {:induction false} ServedOnward(s: Flow, max: nat, input: nat, ready: seq<Ready>)
    requires FlowSound(s, max, input) && !LossyFlow(s)
    ensures var (t, over) := Served(s, max, input, ready);
            && FlowSound(t, max, input) && Onward(s, t, input) && (LossyFlow(t) <==> over)
            && ((exists k :: 0 <= k < |ready| && Moves(s, ready[k])) ==> Pending(t, input) < Pending(s, input))
    decreases |ready|
  {
    if ready != [] {
      MovedOnward(s, max, input, ready[0]);
      var (t, over) := Moved(s, max, input, ready[0]);
      if !over {
        ServedOnward(t, max, input, ready[1..]);
        assert forall k :: 1 <= k < |ready| ==> ready[k] == ready[1..][k - 1];
      }
    }
  }

  /** While a stream is open, every poll finds one from which, or to which, something can be moved. */
  ghost predicate Busy(s: Flow, max: nat, input: nat, polls: seq<Poll>)
    decreases |polls|
  {
    s.open != {} && polls != [] ==>
      && polls[0].Selected? && (exists k :: 0 <= k < |polls[0].ready| && Moves(s, polls[0].ready[k]))
      && Busy(Served(s, max, input, polls[0].ready).0, max, input, polls[1..])
  }

  /** A command whose pipes never fall idle before the deadline ends by itself, and what it wrote alone
      decides how: with everything stored if that fits, and at the output limit if not. */
  lemma {:induction false} BusyIsDecided(s: Flow, max: nat, input: nat, polls: seq<Poll>)
    requires FlowSound(s, max, input) && !LossyFlow(s) && Busy(s, max, input, polls) && |polls| >= Pending(s, input)
    ensures Pumped(s, max, input, polls).outcome
         == if |s.stdout.written| + |s.stderr.written| > max then OutputLimit else Exited
    decreases |polls|
  {
    if s.open != {} {
      ServedOnward(s, max, input, polls[0].ready);
      var (t, over) := Served(s, max, input, polls[0].ready);
      if !over {
        BusyIsDecided(t, max, input, polls[1..]);
      }
    }
  }

  class Capture {
    const max: nat
    const input: nat
    var open: set<Stream>
    var offset: nat
    var stdout: Pipe
    var stderr: Pipe

    ghost predicate Valid()
      reads this
    {
      FlowSound(State(), max, input)
    }

    ghost function State(): Flow
      reads this
    {
      Flow(open, offset, stdout, stderr)
    }

    ghost predicate Lossy()
      reads this
    {
      stdout.Lossy() || stderr.Lossy()
    }

    twostate predicate Same()
      reads this
    {
      stdout.written == old(stdout.written) && stderr.written == old(stderr.written)
    }

    constructor (max: nat, input: nat, out: Bytes, err: Bytes)
      ensures Valid() && !Lossy() && this.max == max && this.input == input
      ensures State() == Start(input, out, err)
    {
      this.max, this.input := max, input;
      offset, open := 0, if input > 0 then {Stdin, Stdout, Stderr} else {Stdout, Stderr};
      stdout, stderr := Pipe(out, 0, []), Pipe(err, 0, []);
    }

    function Room(): nat
      reads this
      requires Valid()
    {
      max - (|stdout.stored| + |stderr.stored|)
    }

    /** Some of the input is written; all of it counts as written once the pipe is broken. */
    method Feed(amount: nat, broken: bool)
      requires Valid()
      modifies this
      ensures Valid() && Same() && stdout == old(stdout) && stderr == old(stderr)
      ensures Stdin in old(open) ==> State() == Moved(old(State()), max, input, Ready(Stdin, amount, broken)).0
      ensures broken ==> offset == input && Stdin !in open
    {
      offset := if broken then input else offset + Min(Min(amount, CHUNK), input - offset);
      if offset == input {
        open := open - {Stdin};
      }
    }

    /** One read of a pipe: at the end it is closed, and otherwise what fits is stored. `over` says
        whether anything was dropped. */
    method Read(error: bool, amount: nat) returns (chunk: Bytes, over: bool)
      requires Valid()
      modifies this`stdout, this`stderr
      ensures Valid() && Same()
      ensures over <==> |chunk| > old(Room())
      ensures Lossy() <==> old(Lossy()) || over
      ensures chunk == old(Chunk(if error then stderr else stdout, amount))
      ensures if error then stdout == old(stdout) && stderr == old(Store(stderr, chunk, Room()))
              else stderr == old(stderr) && stdout == old(Store(stdout, chunk, Room()))
    {
      var space := Room();
      if error {
        StoreKeepsCaptured(stderr, stdout, max, amount);
        chunk := Chunk(stderr, amount);
        stderr := Store(stderr, chunk, space);
      } else {
        StoreKeepsCaptured(stdout, stderr, max, amount);
        chunk := Chunk(stdout, amount);
        stdout := Store(stdout, chunk, space);
      }
      over := |chunk| > space;
    }

    /** One ready stream. */
    method Move(r: Ready) returns (over: bool)
      requires Valid() && !Lossy()
      modifies this
      ensures Valid() && Same() && (Lossy() <==> over)
      ensures (State(), over) == Moved(old(State()), max, input, r)
    {
      over := false;
      if r.stream in open {
        if r.stream == Stdin {
          Feed(r.amount, r.broken);
        } else {
          var chunk;
          chunk, over := Read(r.stream == Stderr, Min(r.amount, CHUNK));
          if chunk == [] {
            open := open - {r.stream};
          }
        }
      }
    }

    /** The streams one poll selected. */
    method Serve(ready: seq<Ready>) returns (over: bool)
      requires Valid() && !Lossy()
      modifies this
      ensures Valid() && Same() && (Lossy() <==> over)
      ensures (State(), over) == Served(old(State()), max, input, ready)
    {
      over := false;
      for k := 0 to |ready|
        invariant Valid() && Same() && !Lossy() && !over
        invariant Served(old(State()), max, input, ready) == Served(State(), max, input, ready[k..])
      {
        assert ready[k..][0] == ready[k] && ready[k..][1..] == ready[k + 1..];
        over := Move(ready[k]);
        if over {
          return;
        }
      }
    }

    /** Polls until every stream is closed, the deadline passes, or the bound is exceeded; after the
        last of the polls given, the deadline has passed. */
    method Pump(polls: seq<Poll>) returns (outcome: Outcome)
      requires Valid() && !Lossy()
      modifies this
      ensures Valid() && Same()
      ensures outcome == OutputLimit <==> Lossy()
      ensures outcome == Exited ==> open == {}
      ensures End(State(), outcome) == Pumped(old(State()), max, input, polls)
    {
      outcome := Exited;
      var k := 0;
      while open != {}
        invariant Valid() && Same() && !Lossy() && k <= |polls| && outcome == Exited
        invariant Pumped(old(State()), max, input, polls) == Pumped(State(), max, input, polls[k..])
        decreases |polls| - k
      {
        if k == |polls| || polls[k].Expired? {
          return Timeout;
        }
        assert polls[k..][0] == polls[k] && polls[k..][1..] == polls[k + 1..];
        var over := Serve(polls[k].ready);
        if over {
          return OutputLimit;
        }
        k := k + 1;
      }
    }

    /** Only one pipe is read, from where it was, and `over` says whether anything was dropped. */
    twostate predicate Drains(error: bool, over: bool)
      reads this
    {
      && Same() && (Lossy() <==> old(Lossy()) || over)
      && if error then stdout == old(stdout) && Later(old(stderr), stderr)
         else stderr == old(stderr) && Later(old(stdout), stdout)
    }

    /** What is left in a pipe once the command was stopped, until it would block. */
    method DrainPipe(error: bool, amounts: seq<nat>) returns (over: bool)
      requires Valid()
      modifies this`stdout, this`stderr
      ensures Valid() && Drains(error, over)
      ensures (if error then stderr else stdout, over) == old(Left(error, amounts, 0))
    {
      over := false;
      ghost var whole := Left(error, amounts, 0);
      for k := 0 to |amounts|
        invariant Valid() && Drains(error, over) && !over
        invariant Left(error, amounts, k) == whole
      {
        var stop;
        stop, over := DrainOnce(error, amounts, k);
        if stop {
          return;
        }
      }
    }

    /** One read of a pipe that is drained; `stop` says whether it was the last. */
    method DrainOnce(error: bool, amounts: seq<nat>, k: nat) returns (stop: bool, over: bool)
      requires Valid() && k < |amounts|
      modifies this`stdout, this`stderr
      ensures Valid() && Drains(error, over) && (over ==> stop)
      ensures old(Left(error, amounts, k)) == if stop then (if error then stderr else stdout, over) else Left(error, amounts, k + 1)
    {
      EmptiedNext(if error then stderr else stdout, if error then |stdout.stored| else |stderr.stored|, max, amounts, k);
      var chunk;
      chunk, over := Read(error, Asked(amounts[k], Room()));
      stop := chunk == [] || over;
    }

    /** What draining one of the pipes comes to. */
    ghost function Left(error: bool, amounts: seq<nat>, k: nat): (Pipe, bool)
      reads this
    {
      if error then Emptied(stderr, |stdout.stored|, max, amounts, k) else Emptied(stdout, |stderr.stored|, max, amounts, k)
    }

    method Drain(outAmounts: seq<nat>, errAmounts: seq<nat>) returns (over: bool)
      requires Valid()
      modifies this`stdout, this`stderr
      ensures Valid() && Same()
      ensures Lossy() <==> old(Lossy()) || over
      ensures (State(), over) == Drained(old(State()), max, outAmounts, errAmounts)
      ensures Later(old(stdout), stdout) && Later(old(stderr), stderr)
    {
      over := DrainPipe(false, outAmounts);
      if !over {
        over := DrainPipe(true, errAmounts);
      }
    }
  }

  /** For every schedule of readiness, cancellation, expiry and final drain: together the stored streams
      are within the bound; each is the beginning of what was written to it; the outcome is the output
      limit exactly when a byte that was read was dropped, and then the bound is used up; a command that
      exited has everything it wrote stored; and if nothing was dropped, it is a timeout exactly
      when the deadline passed while a stream was open or the command did not exit in time. */
  method RunCommand(max: nat, input: nat, out: Bytes, err: Bytes, polls: seq<Poll>, exits: bool,
                    outAmounts: seq<nat>, errAmounts: seq<nat>)
    returns (output: Bytes, errors: Bytes, result: Outcome, outRead: nat, errRead: nat)
    ensures |output| + |errors| <= max
    ensures |output| <= outRead <= |out| && output == out[..|output|]
    ensures |errors| <= errRead <= |err| && errors == err[..|errors|]
    ensures result == OutputLimit <==> |output| + |errors| < outRead + errRead
    ensures result == OutputLimit ==> |output| + |errors| == max
    ensures result == Exited ==> output == out && errors == err
    ensures result != OutputLimit ==> (result == Timeout <==> Ending(max, input, out, err, polls).outcome == Timeout || !exits)
    ensures var end := Ending(max, input, out, err, polls);
            var (flow, over) := Drained(end.flow, max, outAmounts, errAmounts);
            && output == flow.stdout.stored && errors == flow.stderr.stored
            && outRead == flow.stdout.taken && errRead == flow.stderr.taken
            && result == if over then OutputLimit else if end.outcome == Exited && !exits then Timeout else end.outcome
    ensures exits && Busy(Start(input, out, err), max, input, polls) && |polls| >= Pending(Start(input, out, err), input) ==>
              result == if |out| + |err| > max then OutputLimit else Exited
    ensures Ending(max, input, out, err, polls).flow.stdout.stored <= output
    ensures Ending(max, input, out, err, polls).flow.stderr.stored <= errors
  {
    var c := new Capture(max, input, out, err);
    if Busy(Start(input, out, err), max, input, polls) && |polls| >= Pending(Start(input, out, err), input) {
      BusyIsDecided(Start(input, out, err), max, input, polls);
    }
    result := c.Pump(polls);
    if result == Exited && !exits {
      result := Timeout;
    }
    var over := c.Drain(outAmounts, errAmounts);
    if over {
      result := OutputLimit;
    }
    output, errors, outRead, errRead := c.stdout.stored, c.stderr.stored, c.stdout.taken, c.stderr.taken;
    if result == Exited {
      assert c.stdout.taken == |out| && c.stderr.taken == |err|;
      assert out[..|out|] == out && err[..|err|] == err;
    }
  }
}
