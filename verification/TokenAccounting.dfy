/**
 Token accounting: the deltas of counters that only grow until they are reset, and their totals. A
 category that was not observed stays unobserved, and a record whose parts exceed their whole would
 be refused.
*/
module TokenAccounting {
  import opened Options

  datatype Field = UncachedInput | CacheRead | CacheWrite | CacheWrite1h | Output | Reasoning

  datatype Usage = Usage(uncachedInput: Option<nat>, cacheRead: Option<nat>, cacheWrite: Option<nat>,
                         cacheWrite1h: Option<nat>, output: Option<nat>, reasoning: Option<nat>)
  {
    function Get(f: Field): Option<nat> {
      match f
      case UncachedInput => uncachedInput
      case CacheRead => cacheRead
      case CacheWrite => cacheWrite
      case CacheWrite1h => cacheWrite1h
      case Output => output
      case Reasoning => reasoning
    }

    function Count(f: Field): nat {
      match Get(f)
      case Some(n) => n
      case None => 0
    }

    /** A record that is not refused. */
    predicate Valid() {
      && AtMost(reasoning, output)
      && AtMost(cacheWrite1h, cacheWrite)
    }
  }

  /** A part that was observed is no more than its whole, if that was observed too. */
  predicate AtMost(part: Option<nat>, whole: Option<nat>) {
    part.Some? && whole.Some? ==> part.value <= whole.value
  }

  predicate Billable(f: Field) {
    f == UncachedInput || f == CacheRead || f == CacheWrite || f == Output
  }

  predicate Fell(before: Option<nat>, after: Option<nat>) {
    before.Some? && after.Some? && after.value < before.value
  }

  /** Some billable counter fell, so the counters were reset in between. */
  ghost predicate Drops(before: Usage, after: Usage) {
    exists f :: Billable(f) && Fell(before.Get(f), after.Get(f))
  }

  /** The records that carry a usage. */
  function Present(records: seq<Option<Usage>>): (present: seq<Usage>)
    ensures |present| <= |records|
  {
    if records == [] then []
    else Present(records[..|records| - 1])
         + match records[|records| - 1] { case Some(u) => [u] case None => [] }
  }

  lemma PresentAppend(records: seq<Option<Usage>>, record: Option<Usage>)
    ensures Present(records + [record]) == Present(records) + match record { case Some(u) => [u] case None => [] }
  {
    var all := records + [record];
    assert all[..|all| - 1] == records && all[|all| - 1] == record;
  }

  ghost predicate AllValid(usages: seq<Usage>) {
    forall i :: 0 <= i < |usages| ==> usages[i].Valid()
  }

  ghost predicate Observed(usages: seq<Usage>, f: Field) {
    forall i :: 0 <= i < |usages| ==> usages[i].Get(f).Some?
  }

  ghost predicate SomeObserved(usages: seq<Usage>, f: Field) {
    exists i :: 0 <= i < |usages| && usages[i].Get(f).Some?
  }

  function Sum(usages: seq<Usage>, f: Field): nat {
    if usages == [] then 0 else Sum(usages[..|usages| - 1], f) + usages[|usages| - 1].Count(f)
  }

  lemma SumAppend(usages: seq<Usage>, u: Usage, f: Field)
    ensures Sum(usages + [u], f) == Sum(usages, f) + u.Count(f)
  {
    var all := usages + [u];
    assert all[..|all| - 1] == usages && all[|all| - 1] == u;
  }

  /** The counters at a position are the last before a reset, or the last of all. */
  ghost predicate EndsSegment(usages: seq<Usage>, i: nat)
    requires i < |usages|
  {
    i == |usages| - 1 || Drops(usages[i], usages[i + 1])
  }

  /** The last value a counter had in each of the segments ending within the first `n` positions. */
  ghost function SegmentEnds(usages: seq<Usage>, n: nat, f: Field): nat
    requires n <= |usages|
  {
    if n == 0 then 0
    else SegmentEnds(usages, n - 1, f) + if EndsSegment(usages, n - 1) then usages[n - 1].Count(f) else 0
  }

  lemma {:induction false} SegmentEndsAppend(usages: seq<Usage>, u: Usage, n: nat, f: Field)
    requires n < |usages|
    ensures SegmentEnds(usages + [u], n, f) == SegmentEnds(usages, n, f)
  {
    if n > 0 {
      SegmentEndsAppend(usages, u, n - 1, f);
      var all := usages + [u];
      assert all[n - 1] == usages[n - 1] && all[n] == usages[n];
    }
  }

  /** One more reading: what the segments end at grows by the delta. */
  lemma OneMoreReading(usages: seq<Usage>, u: Usage, f: Field)
    ensures var n, all := |usages|, usages + [u];
            SegmentEnds(all, n + 1, f)
            == if n == 0 then u.Count(f)
               else SegmentEnds(usages, n, f) + u.Count(f) - if Drops(usages[n - 1], u) then 0 else usages[n - 1].Count(f)
  {
    var n, all := |usages|, usages + [u];
    if n > 0 {
      SegmentEndsAppend(usages, u, n - 1, f);
      assert all[n - 1] == usages[n - 1] && all[n] == u;
      assert EndsSegment(all, n - 1) <==> Drops(usages[n - 1], u);
      assert EndsSegment(usages, n - 1);
      assert SegmentEnds(all, n, f) == SegmentEnds(all, n - 1, f) + if EndsSegment(all, n - 1) then all[n - 1].Count(f) else 0;
    }
    assert EndsSegment(all, n);
    assert all[n] == u;
  }

  /** A segment begins here: with the first reading, or after a reset. */
  ghost predicate StartsSegment(usages: seq<Usage>, i: nat)
    requires i < |usages|
  {
    i == 0 || Drops(usages[i - 1], usages[i])
  }

  /** The last value the counter showed in the segment of the `n`th reading. */
  ghost function LastShown(usages: seq<Usage>, n: nat, f: Field): Option<nat>
    requires n <= |usages|
  {
    if n == 0 then None
    else if usages[n - 1].Get(f).Some? || StartsSegment(usages, n - 1) then usages[n - 1].Get(f)
    else LastShown(usages, n - 1, f)
  }

  function OrZero(o: Option<nat>): nat {
    if o.Some? then o.value else 0
  }

  /** What the counter showed in the first `n` readings: in each segment its last value. */
  ghost function Shown(usages: seq<Usage>, n: nat, f: Field): nat
    requires n <= |usages|
  {
    ClosedShown(usages, n, f) + OrZero(LastShown(usages, n, f))
  }

  ghost function ClosedShown(usages: seq<Usage>, n: nat, f: Field): nat
    requires n <= |usages|
  {
    if n == 0 then 0
    else ClosedShown(usages, n - 1, f) + if StartsSegment(usages, n - 1) then OrZero(LastShown(usages, n - 1, f)) else 0
  }

  /** By how much the counter rose, or fell, where that was not seen: from its last value before a gap to
      its first after it, and to its first value in a segment that began without one. */
  ghost function Skipped(usages: seq<Usage>, n: nat, f: Field): int
    requires n <= |usages|
  {
    if n == 0 then 0
    else
      var unseen := usages[n - 1].Get(f).Some? && !StartsSegment(usages, n - 1) && usages[n - 2].Get(f).None?;
      Skipped(usages, n - 1, f) + if unseen then usages[n - 1].Count(f) - OrZero(LastShown(usages, n - 1, f)) else 0
  }

  /** More readings change nothing about the first. */
  lemma {:induction false} ReadingsAppend(usages: seq<Usage>, u: Usage, n: nat, f: Field)
    requires n <= |usages|
    ensures LastShown(usages + [u], n, f) == LastShown(usages, n, f)
    ensures ClosedShown(usages + [u], n, f) == ClosedShown(usages, n, f)
    ensures Skipped(usages + [u], n, f) == Skipped(usages, n, f)
  {
    if n > 0 {
      ReadingsAppend(usages, u, n - 1, f);
      var all := usages + [u];
      assert all[n - 1] == usages[n - 1] && (n > 1 ==> all[n - 2] == usages[n - 2]);
    }
  }

  /** At every moment the deltas add up to what the counter showed but for what was skipped. */
  ghost predicate AllButSkipped(usages: seq<Usage>, deltas: seq<Usage>, f: Field) {
    |deltas| == |usages| && forall n :: 0 <= n <= |usages| ==> ButSkipped(usages, deltas, n, f)
  }

  ghost predicate ButSkipped(usages: seq<Usage>, deltas: seq<Usage>, n: nat, f: Field)
    requires n <= |usages| == |deltas|
  {
    Sum(deltas[..n], f) == Shown(usages, n, f) - Skipped(usages, n, f)
  }

  lemma OneMoreSkipped(usages: seq<Usage>, deltas: seq<Usage>, u: Usage, d: Usage, f: Field)
    requires Billable(f) && AllButSkipped(usages, deltas, f)
    requires usages == [] ==> d == Delta(true, u, u)
    requires usages != [] ==> var last := usages[|usages| - 1]; d == Delta(Drops(last, u), last, u)
    ensures AllButSkipped(usages + [u], deltas + [d], f)
  {
    var all, more := usages + [u], deltas + [d];
    forall n | 0 <= n <= |usages| ensures ButSkipped(all, more, n, f) {
      assert more[..n] == deltas[..n] && ButSkipped(usages, deltas, n, f);
      ReadingsAppend(usages, u, n, f);
    }
    LastReading(all, more, f);
  }

  /** The last of the readings, when all is told about those before it. */
  lemma LastReading(usages: seq<Usage>, deltas: seq<Usage>, f: Field)
    requires Billable(f) && usages != [] && |deltas| == |usages| && ButSkipped(usages, deltas, |usages| - 1, f)
    requires var n, u, d := |usages| - 1, usages[|usages| - 1], deltas[|usages| - 1];
             if n == 0 then d == Delta(true, u, u) else d == Delta(Drops(usages[n - 1], u), usages[n - 1], u)
    ensures ButSkipped(usages, deltas, |usages|, f)
  {
    var n, u := |usages| - 1, usages[|usages| - 1];
    assert deltas[..|usages|] == deltas && deltas == deltas[..n] + [deltas[n]];
    SumAppend(deltas[..n], deltas[n], f);
    LastOne(usages, f);
    if n > 0 {
      assert !Drops(usages[n - 1], u) ==> !Fell(usages[n - 1].Get(f), u.Get(f));
    }
  }

  /** What the last reading adds to what is shown and skipped. */
  lemma LastOne(usages: seq<Usage>, f: Field)
    requires usages != []
    ensures var n, u := |usages| - 1, usages[|usages| - 1];
            var gain := Shown(usages, n + 1, f) - Skipped(usages, n + 1, f) - Shown(usages, n, f) + Skipped(usages, n, f);
            gain == if StartsSegment(usages, n) then u.Count(f)
                    else if u.Get(f).Some? && usages[n - 1].Get(f).Some? then u.Count(f) - usages[n - 1].Count(f)
                    else 0
  {
    var n := |usages| - 1;
    if !StartsSegment(usages, n) && usages[n - 1].Get(f).Some? {
      assert LastShown(usages, n, f) == usages[n - 1].Get(f);
    }
  }

  /** A counter that was observed throughout skips nothing. */
  lemma {:induction false} ObservedSkipsNothing(usages: seq<Usage>, n: nat, f: Field)
    requires Observed(usages, f) && n <= |usages|
    ensures Skipped(usages, n, f) == 0
  {
    if n > 0 {
      ObservedSkipsNothing(usages, n - 1, f);
    }
  }

  /** No value after a gap is less than the last one before it in the same segment. */
  ghost predicate NeverFellUnseen(usages: seq<Usage>, f: Field) {
    forall i :: 0 <= i < |usages| && usages[i].Get(f).Some? ==>
      StartsSegment(usages, i) || OrZero(LastShown(usages, i, f)) <= usages[i].Count(f)
  }

  /** Within a segment a billable counter is charged the last value it shows there but for what was
      skipped: more than that exactly when, in all, it fell where that was not seen, and exactly that
      when its unseen rises and falls cancel out. */
  lemma ChargedMoreIffFellUnseen(usages: seq<Usage>, deltas: seq<Usage>, f: Field, start: nat, end: nat)
    requires Telescoped(usages, deltas) && Billable(f)
    requires start < end <= |usages| && StartsSegment(usages, start)
    requires forall i :: start < i < end ==> !StartsSegment(usages, i)
    ensures var charged := Sum(deltas[..end], f) - Sum(deltas[..start], f);
            var shown := OrZero(LastShown(usages, end, f));
            var skipped := Skipped(usages, end, f) - Skipped(usages, start, f);
            && charged == shown - skipped
            && (charged > shown <==> skipped < 0)
            && (charged == shown <==> skipped == 0)
  {
    assert AllButSkipped(usages, deltas, f);
    assert ButSkipped(usages, deltas, start, f) && ButSkipped(usages, deltas, end, f);
    ClosedAtStart(usages, f, start, end);
  }

  lemma {:induction false} ClosedAtStart(usages: seq<Usage>, f: Field, start: nat, end: nat)
    requires start < end <= |usages| && StartsSegment(usages, start)
    requires forall i :: start < i < end ==> !StartsSegment(usages, i)
    ensures ClosedShown(usages, end, f) == Shown(usages, start, f)
  {
    if start + 1 < end {
      ClosedAtStart(usages, f, start, end - 1);
      assert !StartsSegment(usages, end - 1);
    }
  }

  /** A billable counter is never charged more than it showed, at any moment, if it never fell unseen. */
  lemma NeverChargedMore(usages: seq<Usage>, deltas: seq<Usage>, f: Field, n: nat)
    requires Telescoped(usages, deltas) && Billable(f) && NeverFellUnseen(usages, f) && n <= |usages|
    ensures Sum(deltas[..n], f) <= Shown(usages, n, f)
  {
    assert AllButSkipped(usages, deltas, f) && ButSkipped(usages, deltas, n, f);
    SkippedRises(usages, n, f);
  }

  lemma {:induction false} SkippedRises(usages: seq<Usage>, n: nat, f: Field)
    requires NeverFellUnseen(usages, f) && n <= |usages|
    ensures Skipped(usages, n, f) >= 0
  {
    if n > 0 {
      SkippedRises(usages, n - 1, f);
      assert usages[n - 1].Get(f).Some? ==> StartsSegment(usages, n - 1) || OrZero(LastShown(usages, n - 1, f)) <= usages[n - 1].Count(f);
    }
  }

  ghost predicate ResetAt(usages: seq<Usage>, i: nat) {
    0 < i < |usages| && Drops(usages[i - 1], usages[i])
  }

  /** The counters were reset between two of the readings. */
  ghost predicate WasReset(usages: seq<Usage>) {
    exists i :: ResetAt(usages, i)
  }

  lemma WasResetAppend(usages: seq<Usage>, u: Usage)
    ensures WasReset(usages + [u]) <==> WasReset(usages) || (usages != [] && Drops(usages[|usages| - 1], u))
  {
    var all, n := usages + [u], |usages|;
    forall i: nat | i < n ensures ResetAt(all, i) <==> ResetAt(usages, i) {
      if i > 0 {
        assert all[i - 1] == usages[i - 1] && all[i] == usages[i];
      }
    }
    if n > 0 {
      assert all[n - 1] == usages[n - 1] && all[n] == u;
      assert ResetAt(all, n) <==> Drops(usages[n - 1], u);
    }
    if i :| ResetAt(usages, i) {
      assert ResetAt(all, i);
    }
  }

  method Decreased(before: Usage, after: Usage) returns (decreased: bool)
    ensures decreased <==> Drops(before, after)
  {
    var fields := [UncachedInput, CacheRead, CacheWrite, Output];
    decreased := false;
    for i := 0 to |fields|
      invariant decreased <==> exists j :: 0 <= j < i && Fell(before.Get(fields[j]), after.Get(fields[j]))
    {
      if Fell(before.Get(fields[i]), after.Get(fields[i])) {
        decreased := true;
      }
    }
    if f :| Billable(f) && Fell(before.Get(f), after.Get(f)) {
      var j := if f == UncachedInput then 0 else if f == CacheRead then 1 else if f == CacheWrite then 2 else 3;
      assert fields[j] == f;
    }
  }

  /** The delta of one counter; unobserved when either reading is, or when it fell without a reset. */
  function Difference(restart: bool, before: Option<nat>, after: Option<nat>): Option<nat> {
    if restart then after
    else if before.Some? && after.Some? && after.value >= before.value then Some(after.value - before.value)
    else None
  }

  /** A part that exceeds its whole is unobserved. */
  function Within(part: Option<nat>, whole: Option<nat>): Option<nat> {
    if AtMost(part, whole) then part else None
  }

  function Delta(restart: bool, before: Usage, after: Usage): (u: Usage)
    ensures u.Valid()
    ensures forall f :: u.Get(f).Some? ==> after.Get(f).Some? && u.Count(f) <= after.Count(f)
  {
    var output := Difference(restart, before.output, after.output);
    var cacheWrite := Difference(restart, before.cacheWrite, after.cacheWrite);
    Usage(Difference(restart, before.uncachedInput, after.uncachedInput),
          Difference(restart, before.cacheRead, after.cacheRead),
          cacheWrite,
          Within(Difference(restart, before.cacheWrite1h, after.cacheWrite1h), cacheWrite),
          output,
          Within(Difference(restart, before.reasoning, after.reasoning), output))
  }

  /** The counter that a counter is part of. */
  function WholeOf(f: Field): Option<Field> {
    match f
    case Reasoning => Some(Output)
    case CacheWrite1h => Some(CacheWrite)
    case _ => None
  }

  /** Every counter: its delta is what it changed by, since the last reading or since a reset; and there is
      one exactly if it is observed at both ends, has not fallen, and has not changed by more than the
      counter that it is part of. */
  lemma DeltaIsTheChange(restart: bool, before: Usage, after: Usage, f: Field)
    ensures var d, from, whole := Delta(restart, before, after), if restart then 0 else before.Count(f), WholeOf(f);
            && (d.Get(f).Some? ==> d.Count(f) == after.Count(f) - from)
            && (d.Get(f).Some? <==>
                  && after.Get(f).Some? && (restart || before.Get(f).Some?) && from <= after.Count(f)
                  && (whole.Some? && d.Get(whole.value).Some? ==> after.Count(f) - from <= d.Count(whole.value)))
  {
  }

  /** What is known of the deltas of the usages read so far. */
  ghost predicate Telescoped(usages: seq<Usage>, deltas: seq<Usage>) {
    && |deltas| == |usages|
    && AllValid(deltas)
    && (forall f :: Billable(f) && Observed(usages, f) ==>
          Observed(deltas, f) && Sum(deltas, f) == SegmentEnds(usages, |usages|, f))
    && (forall f :: Billable(f) ==> AllButSkipped(usages, deltas, f))
    && (forall f :: Observed(deltas, f) ==> Sum(deltas, f) == SegmentEnds(usages, |usages|, f))
  }

  /** Deltas that are all observed add up to the segments' last values, also of parts. */
  lemma OneMoreObserved(usages: seq<Usage>, deltas: seq<Usage>, u: Usage, d: Usage, f: Field)
    requires |deltas| == |usages| && (Observed(deltas, f) ==> Sum(deltas, f) == SegmentEnds(usages, |usages|, f))
    requires usages == [] ==> d == Delta(true, u, u)
    requires usages != [] ==> var last := usages[|usages| - 1]; d == Delta(Drops(last, u), last, u)
    ensures Observed(deltas + [d], f) ==> Sum(deltas + [d], f) == SegmentEnds(usages + [u], |usages| + 1, f)
  {
    if Observed(deltas + [d], f) {
      assert forall i :: 0 <= i < |deltas| ==> deltas[i] == (deltas + [d])[i];
      assert (deltas + [d])[|deltas|] == d;
      SumAppend(deltas, d, f);
      OneMoreReading(usages, u, f);
      if usages == [] {
        DeltaIsTheChange(true, u, u, f);
      } else {
        DeltaIsTheChange(Drops(usages[|usages| - 1], u), usages[|usages| - 1], u, f);
      }
    }
  }

  lemma OneMoreDelta(usages: seq<Usage>, deltas: seq<Usage>, u: Usage, d: Usage)
    requires Telescoped(usages, deltas)
    requires usages == [] ==> d == Delta(true, u, u)
    requires usages != [] ==> var last := usages[|usages| - 1]; d == Delta(Drops(last, u), last, u)
    ensures Telescoped(usages + [u], deltas + [d])
  {
    var all := usages + [u];
    forall f ensures Observed(deltas + [d], f) ==> Sum(deltas + [d], f) == SegmentEnds(all, |all|, f) {
      OneMoreObserved(usages, deltas, u, d, f);
    }
    forall f | Billable(f) ensures AllButSkipped(all, deltas + [d], f) {
      OneMoreSkipped(usages, deltas, u, d, f);
    }
    forall f | Billable(f) && Observed(all, f)
      ensures Observed(deltas + [d], f) && Sum(deltas + [d], f) == SegmentEnds(all, |all|, f)
    {
      assert all[|usages|] == u;
      assert forall i :: 0 <= i < |usages| ==> usages[i] == all[i];
      assert Observed(usages, f);
      SumAppend(deltas, d, f);
      OneMoreReading(usages, u, f);
      if usages != [] {
        var last := usages[|usages| - 1];
        assert !Drops(last, u) ==> !Fell(last.Get(f), u.Get(f));
      }
    }
  }

  /** Records with what they were converted to: a delta for each that carries a usage. */
  ghost predicate Converted(records: seq<Option<Usage>>, converted: seq<Option<Usage>>, reset: bool) {
    && |converted| == |records|
    && (forall i :: 0 <= i < |records| ==> (converted[i].Some? <==> records[i].Some?))
    && Telescoped(Present(records), Present(converted))
    && (reset <==> WasReset(Present(records)))
  }

  function Last(records: seq<Option<Usage>>): Option<Usage> {
    var seen := Present(records);
    if seen == [] then None else Some(seen[|seen| - 1])
  }

  lemma ConvertedNone(records: seq<Option<Usage>>, converted: seq<Option<Usage>>, reset: bool)
    requires Converted(records, converted, reset)
    ensures Converted(records + [None], converted + [None], reset) && Last(records + [None]) == Last(records)
  {
    PresentAppend(records, None);
    PresentAppend(converted, None);
    assert Present(records) + [] == Present(records) && Present(converted) + [] == Present(converted);
  }

  lemma ConvertedSome(records: seq<Option<Usage>>, converted: seq<Option<Usage>>, reset: bool, u: Usage, decreased: bool)
    requires Converted(records, converted, reset)
    requires decreased <==> Last(records).Some? && Drops(Last(records).value, u)
    ensures var before := if Last(records).Some? then Last(records).value else u;
            Converted(records + [Some(u)], converted + [Some(Delta(decreased || Last(records).None?, before, u))], reset || decreased)
    ensures Last(records + [Some(u)]) == Some(u)
  {
    var before := if Last(records).Some? then Last(records).value else u;
    var d := Delta(decreased || Last(records).None?, before, u);
    PresentAppend(records, Some(u));
    PresentAppend(converted, Some(d));
    OneMoreDelta(Present(records), Present(converted), u, d);
    WasResetAppend(Present(records), u);
  }

  /** Cumulative readings become deltas. Every delta is a valid record, whatever the readings; the
      deltas of a billable counter add up to the last value it showed in each segment but for what was
      skipped, which is nothing if it was observed throughout; and a reset is reported exactly when there
      was one. Records without usage stay so. */
  method Cumulative(records: seq<Option<Usage>>) returns (converted: seq<Option<Usage>>, reset: bool)
    ensures Converted(records, converted, reset)
    ensures var usages := Present(records);
            forall f :: Billable(f) && Observed(usages, f) ==>
              Skipped(usages, |usages|, f) == 0 && Sum(Present(converted), f) == Shown(usages, |usages|, f)
  {
    var previous: Option<Usage> := None;
    converted, reset := [], false;
    for i := 0 to |records|
      invariant Converted(records[..i], converted, reset) && previous == Last(records[..i])
    {
      assert records[..i + 1] == records[..i] + [records[i]];
      match records[i]
      case None =>
        ConvertedNone(records[..i], converted, reset);
        converted := converted + [None];
      case Some(current) =>
        var decreased := false;
        if previous.Some? {
          decreased := Decreased(previous.value, current);
        }
        var before := if previous.Some? then previous.value else current;
        var delta := Delta(decreased || previous.None?, before, current);
        ConvertedSome(records[..i], converted, reset, current, decreased);
        converted := converted + [Some(delta)];
        previous := Some(current);
        reset := reset || decreased;
    }
    assert records[..|records|] == records;
    NothingSkipped(Present(records), Present(converted));
  }

  /** What was observed throughout is charged exactly what it shows. */
  lemma NothingSkipped(usages: seq<Usage>, deltas: seq<Usage>)
    requires Telescoped(usages, deltas)
    ensures forall f :: Billable(f) && Observed(usages, f) ==>
              Skipped(usages, |usages|, f) == 0 && Sum(deltas, f) == Shown(usages, |usages|, f)
  {
    forall f | Billable(f) && Observed(usages, f)
      ensures Skipped(usages, |usages|, f) == 0 && Sum(deltas, f) == Shown(usages, |usages|, f)
    {
      ObservedSkipsNothing(usages, |usages|, f);
      assert AllButSkipped(usages, deltas, f) && ButSkipped(usages, deltas, |usages|, f) && deltas[..|usages|] == deltas;
    }
  }

  /** The total of a category: unobserved if it never was observed. */
  ghost predicate IsTotal(total: Option<nat>, usages: seq<Usage>, f: Field) {
    if SomeObserved(usages, f) then total == Some(Sum(usages, f)) else total == None
  }

  /** Every cache write says how much of it was for an hour. */
  ghost predicate HoursKnown(usages: seq<Usage>) {
    forall i :: 0 <= i < |usages| && usages[i].cacheWrite.Some? ==> usages[i].cacheWrite1h.Some?
  }

  /** What the cache writes say was for an hour; an hour count beside no cache write is not counted. */
  function HourSum(usages: seq<Usage>): nat {
    if usages == [] then 0
    else
      var u := usages[|usages| - 1];
      HourSum(usages[..|usages| - 1]) + if u.cacheWrite.Some? then u.Count(CacheWrite1h) else 0
  }

  lemma HourSumAppend(usages: seq<Usage>, u: Usage)
    ensures HourSum(usages + [u]) == HourSum(usages) + if u.cacheWrite.Some? then u.Count(CacheWrite1h) else 0
  {
    var all := usages + [u];
    assert all[..|all| - 1] == usages && all[|all| - 1] == u;
  }

  lemma {:induction false} HoursWithin(usages: seq<Usage>)
    requires AllValid(usages)
    ensures HourSum(usages) <= Sum(usages, CacheWrite)
  {
    if usages != [] {
      HoursWithin(usages[..|usages| - 1]);
    }
  }

  lemma IsTotalAppend(total: Option<nat>, usages: seq<Usage>, u: Usage, f: Field)
    requires IsTotal(total, usages, f)
    ensures IsTotal(Plus(total, u.Get(f)), usages + [u], f)
  {
    SumAppend(usages, u, f);
    var all := usages + [u];
    assert forall i :: 0 <= i < |usages| ==> all[i] == usages[i];
    assert all[|usages|] == u;
    if SomeObserved(usages, f) {
      var i :| 0 <= i < |usages| && usages[i].Get(f).Some?;
      assert all[i].Get(f).Some?;
    } else {
      NoneObserved(usages, f);
    }
  }

  lemma {:induction false} NoneObserved(usages: seq<Usage>, f: Field)
    requires !SomeObserved(usages, f)
    ensures Sum(usages, f) == 0
  {
    if usages != [] {
      var init := usages[..|usages| - 1];
      assert forall i :: 0 <= i < |init| ==> init[i] == usages[i];
      NoneObserved(init, f);
    }
  }

  function Plus(total: Option<nat>, value: Option<nat>): Option<nat> {
    match value
    case None => total
    case Some(n) => Some(n + if total.Some? then total.value else 0)
  }

  ghost predicate Totals(usages: seq<Usage>, t: Usage) {
    forall f :: f != CacheWrite1h ==> IsTotal(t.Get(f), usages, f)
  }

  ghost predicate Hours(usages: seq<Usage>, known: bool, hours: Option<nat>) {
    && (known <==> HoursKnown(usages))
    && (known ==> hours == if SomeObserved(usages, CacheWrite) then Some(HourSum(usages)) else None)
  }

  /** The totals, and whether and to how much the hour counts of the cache writes add up. */
  method Accumulate(usages: seq<Option<Usage>>) returns (t: Usage, known: bool, hours: Option<nat>)
    ensures Totals(Present(usages), t)
    ensures Hours(Present(usages), known, hours)
  {
    t, known, hours := Usage(None, None, None, None, None, None), true, None;
    for i := 0 to |usages|
      invariant Totals(Present(usages[..i]), t)
      invariant Hours(Present(usages[..i]), known, hours)
    {
      ghost var seen := Present(usages[..i]);
      assert usages[..i + 1] == usages[..i] + [usages[i]];
      PresentAppend(usages[..i], usages[i]);
      match usages[i]
      case None =>
        assert seen + [] == seen;
      case Some(u) =>
        AddUsage(seen, t, u);
        AddHours(seen, u, known, hours);
        t := Added(t, u);
        if u.cacheWrite.Some? {
          if u.cacheWrite1h.None? {
            known := false;
          } else {
            hours := Plus(hours, u.cacheWrite1h);
          }
        }
    }
    assert usages[..|usages|] == usages;
  }

  function Added(t: Usage, u: Usage): Usage {
    Usage(Plus(t.uncachedInput, u.uncachedInput), Plus(t.cacheRead, u.cacheRead), Plus(t.cacheWrite, u.cacheWrite),
          t.cacheWrite1h, Plus(t.output, u.output), Plus(t.reasoning, u.reasoning))
  }

  lemma AddUsage(usages: seq<Usage>, t: Usage, u: Usage)
    requires Totals(usages, t)
    ensures Totals(usages + [u], Added(t, u))
  {
    forall f | f != CacheWrite1h ensures IsTotal(Added(t, u).Get(f), usages + [u], f) {
      IsTotalAppend(t.Get(f), usages, u, f);
    }
  }

  lemma AddHours(usages: seq<Usage>, u: Usage, known: bool, hours: Option<nat>)
    requires Hours(usages, known, hours)
    ensures u.cacheWrite.None? ==> Hours(usages + [u], known, hours)
    ensures u.cacheWrite.Some? && u.cacheWrite1h.None? ==> Hours(usages + [u], false, hours)
    ensures u.cacheWrite.Some? && u.cacheWrite1h.Some? ==> Hours(usages + [u], known, Plus(hours, u.cacheWrite1h))
  {
    HourSumAppend(usages, u);
    HoursKnownAppend(usages, u);
    if !SomeObserved(usages, CacheWrite) {
      NoHours(usages);
    }
  }

  lemma HoursKnownAppend(usages: seq<Usage>, u: Usage)
    ensures HoursKnown(usages + [u]) <==> HoursKnown(usages) && (u.cacheWrite.Some? ==> u.cacheWrite1h.Some?)
    ensures SomeObserved(usages + [u], CacheWrite) <==> SomeObserved(usages, CacheWrite) || u.cacheWrite.Some?
  {
    var all := usages + [u];
    assert forall i :: 0 <= i < |usages| ==> all[i] == usages[i];
    assert all[|usages|] == u;
    if i :| 0 <= i < |usages| && usages[i].Get(CacheWrite).Some? {
      assert all[i].Get(CacheWrite).Some?;
    }
  }

  lemma {:induction false} NoHours(usages: seq<Usage>)
    requires !SomeObserved(usages, CacheWrite)
    ensures HourSum(usages) == 0
  {
    if usages != [] {
      var init := usages[..|usages| - 1];
      assert forall i :: 0 <= i < |init| ==> init[i] == usages[i];
      assert usages[|usages| - 1].Get(CacheWrite).None?;
      NoHours(init);
    }
  }

  /** The total of valid records is a valid record. It gives every category that was observed its sum,
      except that reasoning is unobserved when it would exceed the output, and the hour count when some
      cache write does not say. */
  method TokenSum(usages: seq<Option<Usage>>) returns (total: Usage)
    requires AllValid(Present(usages))
    ensures total.Valid()
    ensures forall f :: Billable(f) ==> IsTotal(total.Get(f), Present(usages), f)
    ensures var present := Present(usages);
            if SomeObserved(present, Output) && Sum(present, Reasoning) > Sum(present, Output) then total.reasoning == None
            else IsTotal(total.reasoning, present, Reasoning)
    ensures total.cacheWrite1h == if HoursKnown(Present(usages)) && SomeObserved(Present(usages), CacheWrite)
                                  then Some(HourSum(Present(usages))) else None
  {
    var t, known, hours := Accumulate(usages);
    ghost var present := Present(usages);
    assert IsTotal(t.Get(Output), present, Output) && IsTotal(t.Get(Reasoning), present, Reasoning);
    assert IsTotal(t.Get(CacheWrite), present, CacheWrite);
    HoursWithin(present);
    if !SomeObserved(present, Reasoning) {
      NoneObserved(present, Reasoning);
    }
    total := t.(reasoning := Within(t.reasoning, t.output), cacheWrite1h := if known then hours else None);
    BillableStays(present, t, total);
  }

  lemma BillableStays(usages: seq<Usage>, t: Usage, total: Usage)
    requires Totals(usages, t) && total == t.(reasoning := total.reasoning, cacheWrite1h := total.cacheWrite1h)
    ensures forall f :: Billable(f) ==> IsTotal(total.Get(f), usages, f)
  {
    forall f | Billable(f) ensures IsTotal(total.Get(f), usages, f) {
      assert total.Get(f) == t.Get(f);
    }
  }

  /** From cumulative readings to a role's total: nothing is refused on the way, and a billable
      category observed throughout is charged the last value it had in each segment. */
  method CumulativeTotal(records: seq<Option<Usage>>) returns (total: Usage)
    ensures total.Valid()
    ensures var usages := Present(records);
            forall f :: Billable(f) && usages != [] && Observed(usages, f) ==>
              total.Get(f) == Some(SegmentEnds(usages, |usages|, f))
    ensures var usages := Present(records);
            forall f :: Billable(f) ==> total.Count(f) == Shown(usages, |usages|, f) - Skipped(usages, |usages|, f)
  {
    var converted, _ := Cumulative(records);
    total := TokenSum(converted);
    ghost var usages, deltas := Present(records), Present(converted);
    forall f | Billable(f) && usages != [] && Observed(usages, f)
      ensures total.Get(f) == Some(SegmentEnds(usages, |usages|, f))
    {
      assert IsTotal(total.Get(f), deltas, f);
      assert deltas[0].Get(f).Some?;
      assert SomeObserved(deltas, f);
    }
    forall f | Billable(f) ensures total.Count(f) == Shown(usages, |usages|, f) - Skipped(usages, |usages|, f) {
      assert IsTotal(total.Get(f), deltas, f) && AllButSkipped(usages, deltas, f);
      assert ButSkipped(usages, deltas, |usages|, f) && deltas[..|usages|] == deltas;
      if !SomeObserved(deltas, f) {
        NoneObserved(deltas, f);
      }
    }
  }

  /** It happens: a fall across a gap is not seen as a reset, and what was counted before it is counted
      again. */
  lemma GapCountsTwice(gap: Usage, first: Usage, later: Usage, last: Usage)
    requires gap == Usage(None, None, None, None, None, None)
    requires first == gap.(output := Some(5)) && later == gap.(output := Some(3)) && last == gap.(output := Some(8))
    ensures !Drops(first, gap) && !Drops(gap, later) && !Drops(later, last)
    ensures Delta(true, first, first).Count(Output) + Delta(false, first, gap).Count(Output)
            + Delta(false, gap, later).Count(Output) + Delta(false, later, last).Count(Output) == 10
    ensures Shown([first, gap, later, last], 4, Output) == 8 && Skipped([first, gap, later, last], 4, Output) == -2
    ensures SegmentEnds([first, gap, later, last], 4, Output) == 8
  {
    var us := [first, gap, later, last];
    assert !EndsSegment(us, 0) && !EndsSegment(us, 1) && !EndsSegment(us, 2);
    assert SegmentEnds(us, 3, Output) == 0 by {
      assert SegmentEnds(us, 1, Output) == 0;
      assert SegmentEnds(us, 2, Output) == 0;
    }
    assert !StartsSegment(us, 1) && !StartsSegment(us, 2) && !StartsSegment(us, 3);
    assert LastShown(us, 1, Output) == Some(5) && LastShown(us, 2, Output) == Some(5) && LastShown(us, 3, Output) == Some(3);
    assert Skipped(us, 1, Output) == 0 && Skipped(us, 2, Output) == 0 && Skipped(us, 3, Output) == -2;
    assert ClosedShown(us, 1, Output) == 0 && ClosedShown(us, 2, Output) == 0 && ClosedShown(us, 3, Output) == 0;
  }
}
