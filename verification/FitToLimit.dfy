/**
 Fitting a judge's transcript into an input limit: a binary search for the most that can be kept,
 which is right because what is kept for a smaller count is part of what is kept for a larger one.
*/
module FitToLimit {

  const KEPT_ACTIONS: nat := 2

  /** A transcript entry and the number of bytes of its canonical encoding. */
  datatype Entry = Entry(action: bool, text: string, bytes: nat)

  /** A request, of which everything but transcript and flag is encoded in `frame` bytes; an emptied
      request has lost its transcript and says so in its instruction. */
  datatype Request = Request(transcript: seq<Entry>, truncated: bool, emptied: bool, frame: nat)

  function Sum(entries: seq<Entry>): nat {
    if entries == [] then 0 else entries[0].bytes + Sum(entries[1..])
  }

  /** The length of the canonical encoding: frame, flag, brackets, entries and the commas between. */
  function Size(r: Request): nat {
    r.frame + (if r.truncated then 4 else 5) + 2 + Sum(r.transcript) + if r.transcript == [] then 0 else |r.transcript| - 1
  }

  /** The positions of the actions, from position `from` on. */
  function Actions(entries: seq<Entry>, from: nat): (positions: seq<nat>)
    ensures forall i :: 0 <= i < |positions| ==> from <= positions[i] < from + |entries| && entries[positions[i] - from].action
    ensures forall i, j :: 0 <= i < j < |positions| ==> positions[i] < positions[j]
  {
    if entries == [] then []
    else (if entries[0].action then [from] else []) + Actions(entries[1..], from + 1)
  }

  /** The first ceil(count / 2) and the last floor(count / 2) of the actions. */
  function Kept(actions: seq<nat>, count: nat): set<nat>
    requires count <= |actions|
  {
    var head := (count + 1) / 2;
    var first, last := actions[..head], actions[|actions| - (count - head)..];
    (set p | p in first) + (set p | p in last)
  }

  /** The entries that are messages or whose position is kept. */
  function Keep(entries: seq<Entry>, kept: set<nat>, from: nat): seq<Entry> {
    if entries == [] then []
    else (if !entries[0].action || from in kept then [entries[0]] else []) + Keep(entries[1..], kept, from + 1)
  }

  function Keeping(r: Request, count: nat): Request
    requires count <= |Actions(r.transcript, 0)|
  {
    r.(transcript := Keep(r.transcript, Kept(Actions(r.transcript, 0), count), 0), truncated := true)
  }

  function Emptied(r: Request): Request {
    r.(transcript := [], truncated := true, emptied := true)
  }

  /** What is kept for a count is kept for every larger one. */
  lemma KeptIsNested(actions: seq<nat>, fewer: nat, more: nat)
    requires fewer <= more <= |actions|
    ensures Kept(actions, fewer) <= Kept(actions, more)
  {
    var h, H := (fewer + 1) / 2, (more + 1) / 2;
    assert h <= H && fewer - h <= more - H;
    assert actions[..h] == actions[..H][..h];
    var t, T := |actions| - (fewer - h), |actions| - (more - H);
    assert actions[t..] == actions[T..][t - T..];
  }

  lemma {:induction false} KeepGrows(entries: seq<Entry>, fewer: set<nat>, more: set<nat>, from: nat)
    requires fewer <= more
    ensures Sum(Keep(entries, fewer, from)) <= Sum(Keep(entries, more, from))
    ensures |Keep(entries, fewer, from)| <= |Keep(entries, more, from)|
  {
    if entries != [] {
      KeepGrows(entries[1..], fewer, more, from + 1);
      var e := entries[0];
      var a, b := Keep(entries[1..], fewer, from + 1), Keep(entries[1..], more, from + 1);
      assert ([e] + a)[1..] == a && ([e] + b)[1..] == b && [] + a == a && [] + b == b;
    }
  }

  /** So the encoding grows with the count. */
  lemma KeepingGrows(r: Request, fewer: nat, more: nat)
    requires fewer <= more <= |Actions(r.transcript, 0)|
    ensures Size(Keeping(r, fewer)) <= Size(Keeping(r, more))
  {
    var actions := Actions(r.transcript, 0);
    KeptIsNested(actions, fewer, more);
    KeepGrows(r.transcript, Kept(actions, fewer), Kept(actions, more), 0);
  }

  function Messages(entries: seq<Entry>): seq<Entry> {
    if entries == [] then []
    else (if entries[0].action then [] else [entries[0]]) + Messages(entries[1..])
  }

  /** Every message is kept, in order. */
  lemma {:induction false} KeepKeepsMessages(entries: seq<Entry>, kept: set<nat>, from: nat)
    ensures Messages(Keep(entries, kept, from)) == Messages(entries)
  {
    if entries != [] {
      KeepKeepsMessages(entries[1..], kept, from + 1);
      var e, rest := entries[0], Keep(entries[1..], kept, from + 1);
      assert ([e] + rest)[1..] == rest && [] + rest == rest;
    }
  }

  function OnlyActions(entries: seq<Entry>): seq<Entry> {
    if entries == [] then []
    else (if entries[0].action then [entries[0]] else []) + OnlyActions(entries[1..])
  }

  /** Of actions ranked from `rank` on, those ranked below `head` or from `last` on. */
  function Ends(actions: seq<Entry>, rank: nat, head: nat, last: nat): seq<Entry> {
    if actions == [] then []
    else (if rank < head || last <= rank then [actions[0]] else []) + Ends(actions[1..], rank + 1, head, last)
  }

  lemma {:induction false} EndsTail(actions: seq<Entry>, rank: nat, head: nat, last: nat)
    requires last <= rank
    ensures Ends(actions, rank, head, last) == actions
  {
    if actions != [] {
      EndsTail(actions[1..], rank + 1, head, last);
    }
  }

  lemma {:induction false} EndsMiddle(actions: seq<Entry>, rank: nat, head: nat, last: nat)
    requires head <= rank <= last <= rank + |actions|
    ensures Ends(actions, rank, head, last) == actions[last - rank..]
  {
    if rank == last {
      EndsTail(actions, rank, head, last);
    } else {
      EndsMiddle(actions[1..], rank + 1, head, last);
      assert actions[last - rank..] == actions[1..][last - rank - 1..];
    }
  }

  /** Which are the first and the last of them. */
  lemma {:induction false} EndsHead(actions: seq<Entry>, rank: nat, head: nat, last: nat)
    requires rank <= head <= last <= rank + |actions|
    ensures Ends(actions, rank, head, last) == actions[..head - rank] + actions[last - rank..]
  {
    if rank == head {
      EndsMiddle(actions, rank, head, last);
      assert actions[..0] == [];
    } else {
      var rest := actions[1..];
      EndsHead(rest, rank + 1, head, last);
      assert actions[..head - rank] == [actions[0]] + rest[..head - rank - 1];
      assert actions[last - rank..] == rest[last - rank - 1..];
    }
  }

  /** The kept positions are those of the outer ranks. */
  predicate RankedBy(q: seq<nat>, kept: set<nat>, rank: nat, head: nat, last: nat) {
    forall i :: 0 <= i < |q| ==> (q[i] in kept <==> rank + i < head || last <= rank + i)
  }

  lemma RankedTail(q: seq<nat>, kept: set<nat>, rank: nat, head: nat, last: nat)
    requires q != [] && RankedBy(q, kept, rank, head, last)
    ensures q[0] in kept <==> rank < head || last <= rank
    ensures RankedBy(q[1..], kept, rank + 1, head, last)
  {
    assert q[0] in kept <==> rank + 0 < head || last <= rank + 0;
    forall i | 0 <= i < |q[1..]| ensures q[1..][i] in kept <==> rank + 1 + i < head || last <= rank + 1 + i {
      assert q[1..][i] == q[i + 1];
    }
  }

  /** Positions and ranks: keeping the positions of the outer ranks keeps the outer actions. */
  lemma {:induction false} KeepEnds(entries: seq<Entry>, from: nat, kept: set<nat>, rank: nat, head: nat, last: nat)
    requires RankedBy(Actions(entries, from), kept, rank, head, last)
    ensures OnlyActions(Keep(entries, kept, from)) == Ends(OnlyActions(entries), rank, head, last)
    ensures |OnlyActions(entries)| == |Actions(entries, from)|
  {
    if entries != [] {
      var e, rest := entries[0], entries[1..];
      var later, acts := Keep(rest, kept, from + 1), OnlyActions(rest);
      var p, q := Actions(rest, from + 1), Actions(entries, from);
      OnlyActionsOne(e, later);
      if e.action {
        assert q == [from] + p && q[0] == from;
        RankedTail(q, kept, rank, head, last);
        assert q[1..] == p;
        KeepEnds(rest, from + 1, kept, rank + 1, head, last);
        assert ([e] + acts)[0] == e && ([e] + acts)[1..] == acts;
      } else {
        assert q == p;
        KeepEnds(rest, from + 1, kept, rank, head, last);
        assert Keep(entries, kept, from) == [e] + later && OnlyActions(entries) == acts;
      }
    }
  }

  lemma OnlyActionsOne(e: Entry, later: seq<Entry>)
    ensures OnlyActions([e] + later) == (if e.action then [e] else []) + OnlyActions(later)
    ensures [] + later == later && [] + OnlyActions(later) == OnlyActions(later)
  {
    assert ([e] + later)[1..] == later;
  }

  /** What a count keeps: every message, and of the actions the first ceil(count / 2) and the last
      floor(count / 2), all in order. */
  lemma KeepingKeepsEnds(r: Request, count: nat)
    requires count <= |Actions(r.transcript, 0)|
    ensures Messages(Keeping(r, count).transcript) == Messages(r.transcript)
    ensures var acts, head := OnlyActions(r.transcript), (count + 1) / 2;
            && count <= |acts|
            && OnlyActions(Keeping(r, count).transcript) == acts[..head] + acts[|acts| - (count - head)..]
  {
    var q, head := Actions(r.transcript, 0), (count + 1) / 2;
    var last := |q| - (count - head);
    var kept := Kept(q, count);
    KeepKeepsMessages(r.transcript, kept, 0);
    KeptRanks(q, count);
    KeepEnds(r.transcript, 0, kept, 0, head, last);
    EndsHead(OnlyActions(r.transcript), 0, head, last);
  }

  lemma KeptRanks(q: seq<nat>, count: nat)
    requires count <= |q| && forall i, j :: 0 <= i < j < |q| ==> q[i] < q[j]
    ensures var head := (count + 1) / 2;
            RankedBy(q, Kept(q, count), 0, head, |q| - (count - head))
  {
    var head := (count + 1) / 2;
    var last := |q| - (count - head);
    forall i | 0 <= i < |q| ensures q[i] in Kept(q, count) <==> i < head || last <= i {
      if i < head {
        assert q[i] == q[..head][i];
      }
      if last <= i {
        assert q[i] == q[last..][i - last];
      }
    }
  }

  /** The largest count searched: all but one action, but never less than the floor. */
  function Ceiling(n: nat): nat {
    if n > KEPT_ACTIONS then n - 1 else n
  }

  /** The floor of the search: two actions, or all if there are fewer. */
  function Floor(n: nat): nat {
    if n < KEPT_ACTIONS then n else KEPT_ACTIONS
  }

  /** The request itself if it fits. Otherwise the largest count of actions, from the floor up to all
      but one, that fits; if even the floor does not fit, no action at all, or the emptied form. */
  ghost predicate IsFitted(r: Request, limit: nat, fitted: Request) {
    var n := |Actions(r.transcript, 0)|;
    if Size(r) <= limit then fitted == r
    else if Size(Keeping(r, Floor(n))) <= limit then exists c :: LargestFit(r, limit, c) && fitted == Keeping(r, c)
    else if n > 0 && Size(Keeping(r, 0)) <= limit then fitted == Keeping(r, 0)
    else fitted == Emptied(r)
  }

  ghost predicate LargestFit(r: Request, limit: nat, c: nat) {
    && Floor(|Actions(r.transcript, 0)|) <= c <= Ceiling(|Actions(r.transcript, 0)|)
    && Size(Keeping(r, c)) <= limit && TooLarge(r, limit, c)
  }

  /** Some count up to all but one fits that keeps more actions than were kept. */
  ghost predicate Missed(r: Request, limit: nat, fitted: Request) {
    exists c :: |OnlyActions(fitted.transcript)| < c <= Ceiling(|Actions(r.transcript, 0)|) && Size(Keeping(r, c)) <= limit
  }

  /** Of a request over the limit the search misses a count that fits exactly when two actions do not
      fit and a single one does; then it keeps none. */
  lemma MissesIffOneFits(r: Request, limit: nat, fitted: Request)
    requires Size(r) > limit && IsFitted(r, limit, fitted)
    ensures var n := |Actions(r.transcript, 0)|;
            Missed(r, limit, fitted) <==> n >= 2 && Size(Keeping(r, 2)) > limit && Size(Keeping(r, 1)) <= limit
    ensures Missed(r, limit, fitted) ==> fitted == Keeping(r, 0)
  {
    var n := |Actions(r.transcript, 0)|;
    if Size(Keeping(r, Floor(n))) <= limit {
      var c :| LargestFit(r, limit, c) && fitted == Keeping(r, c);
      LargestMissesNone(r, limit, c);
    } else {
      NoneKept(r, limit, fitted);
      BelowFloor(r, limit);
    }
  }

  lemma LargestMissesNone(r: Request, limit: nat, c: nat)
    requires c <= |Actions(r.transcript, 0)| && LargestFit(r, limit, c)
    ensures !Missed(r, limit, Keeping(r, c))
    ensures |Actions(r.transcript, 0)| >= 2 ==> Size(Keeping(r, 2)) <= limit
  {
    KeepingKeepsEnds(r, c);
    if |Actions(r.transcript, 0)| >= 2 {
      KeepingGrows(r, 2, c);
    }
  }

  lemma NoneKept(r: Request, limit: nat, fitted: Request)
    requires Size(r) > limit && IsFitted(r, limit, fitted) && Size(Keeping(r, Floor(|Actions(r.transcript, 0)|))) > limit
    ensures |OnlyActions(fitted.transcript)| == 0
    ensures Size(Keeping(r, 0)) <= limit ==> fitted == Keeping(r, 0)
  {
    KeepingKeepsEnds(r, 0);
  }

  /** Where the floor does not fit, only a single action of several may. */
  lemma BelowFloor(r: Request, limit: nat)
    requires Size(Keeping(r, Floor(|Actions(r.transcript, 0)|))) > limit
    ensures var n := |Actions(r.transcript, 0)|;
            (exists c :: 0 < c <= Ceiling(n) && Size(Keeping(r, c)) <= limit) <==> n >= 2 && Size(Keeping(r, 1)) <= limit
    ensures var n := |Actions(r.transcript, 0)|; n >= 2 && Size(Keeping(r, 1)) <= limit ==> Size(Keeping(r, 0)) <= limit
  {
    var n := |Actions(r.transcript, 0)|;
    TooLargeFrom(r, limit, Floor(n));
    if n >= 2 {
      KeepingGrows(r, 0, 1);
    }
  }

  /** The request with every message and the outermost `count` actions left, in their order, which says
      that it was truncated. */
  ghost predicate Shortened(r: Request, count: nat, q: Request) {
    var acts, head := OnlyActions(r.transcript), (count + 1) / 2;
    && count <= |acts|
    && q.truncated && q.frame == r.frame && q.emptied == r.emptied
    && IsPart(q.transcript, r.transcript) && Messages(q.transcript) == Messages(r.transcript)
    && OnlyActions(q.transcript) == acts[..head] + acts[|acts| - (count - head)..]
  }

  /** The first sequence is the second with some entries left out. */
  predicate IsPart(part: seq<Entry>, whole: seq<Entry>) {
    if whole == [] then part == []
    else IsPart(part, whole[1..]) || (part != [] && part[0] == whole[0] && IsPart(part[1..], whole[1..]))
  }

  lemma {:induction false} KeepIsPart(entries: seq<Entry>, kept: set<nat>, from: nat)
    ensures IsPart(Keep(entries, kept, from), entries)
  {
    if entries != [] {
      KeepIsPart(entries[1..], kept, from + 1);
      var rest := Keep(entries[1..], kept, from + 1);
      assert ([entries[0]] + rest)[1..] == rest && [] + rest == rest;
    }
  }

  lemma KeepingShortens(r: Request, count: nat)
    requires count <= |Actions(r.transcript, 0)|
    ensures Shortened(r, count, Keeping(r, count))
  {
    KeepIsPart(r.transcript, Kept(Actions(r.transcript, 0), count), 0);
    KeepingKeepsEnds(r, count);
  }

  /** Sizes add up over messages and actions. */
  lemma {:induction false} SumOfBoth(entries: seq<Entry>)
    ensures Sum(entries) == Sum(Messages(entries)) + Sum(OnlyActions(entries))
    ensures |entries| == |Messages(entries)| + |OnlyActions(entries)|
  {
    if entries != [] {
      SumOfBoth(entries[1..]);
      var e, m, a := entries[0], Messages(entries[1..]), OnlyActions(entries[1..]);
      assert ([e] + m)[1..] == m && ([e] + a)[1..] == a && [] + m == m && [] + a == a;
    }
  }

  /** Whatever is shortened to as many actions has the same size. */
  lemma ShortenedSize(r: Request, count: nat, q: Request)
    requires Shortened(r, count, q)
    ensures count <= |Actions(r.transcript, 0)| && Size(q) == Size(Keeping(r, count))
  {
    ActionsAreCounted(r.transcript, 0);
    KeepingShortens(r, count);
    SumOfBoth(q.transcript);
    SumOfBoth(Keeping(r, count).transcript);
  }

  lemma {:induction false} ActionsAreCounted(entries: seq<Entry>, from: nat)
    ensures |Actions(entries, from)| == |OnlyActions(entries)|
  {
    if entries != [] {
      ActionsAreCounted(entries[1..], from + 1);
    }
  }

  /** The counts that are tried: none, and from the floor up to all but one. */
  predicate Tried(r: Request, count: nat) {
    count == 0 || Floor(|OnlyActions(r.transcript)|) <= count <= Ceiling(|OnlyActions(r.transcript)|)
  }

  /** What the request becomes: itself, exactly if it fits; otherwise it says that it was truncated, and
      either it fits, all messages and the outermost actions of a count that is tried are left, the
      instruction is unchanged and no larger count that is tried fits; or no count that is tried fits, the
      transcript is gone, and the instruction says so. */
  ghost predicate Honest(r: Request, limit: nat, fitted: Request) {
    if Size(r) <= limit then fitted == r
    else
      && fitted.truncated && fitted.frame == r.frame
      && if exists count: nat, q :: Fits(r, count, limit, q)
         then exists count: nat :: Fits(r, count, limit, fitted) && forall more: nat, q :: Fits(r, more, limit, q) ==> more <= count
         else fitted.transcript == [] && fitted.emptied
  }

  ghost predicate Fits(r: Request, count: nat, limit: nat, q: Request) {
    Tried(r, count) && Shortened(r, count, q) && Size(q) <= limit
  }

  lemma FittedIsHonest(r: Request, limit: nat, fitted: Request)
    requires IsFitted(r, limit, fitted)
    ensures Honest(r, limit, fitted)
  {
    ActionsAreCounted(r.transcript, 0);
    var n := |Actions(r.transcript, 0)|;
    if Size(r) > limit {
      if Size(Keeping(r, Floor(n))) <= limit {
        var c :| LargestFit(r, limit, c) && fitted == Keeping(r, c);
        LargestIsHonest(r, limit, c);
      } else {
        OnlyNoneFits(r, limit);
        if Size(Keeping(r, 0)) <= limit {
          KeepingShortens(r, 0);
          assert Fits(r, 0, limit, fitted);
        }
      }
    }
  }

  lemma LargestIsHonest(r: Request, limit: nat, c: nat)
    requires LargestFit(r, limit, c) && Size(r) > limit
    ensures Fits(r, c, limit, Keeping(r, c)) && forall more: nat, q :: Fits(r, more, limit, q) ==> more <= c
  {
    ActionsAreCounted(r.transcript, 0);
    KeepingShortens(r, c);
    forall more: nat, q | Fits(r, more, limit, q) ensures more <= c {
      ShortenedSize(r, more, q);
    }
  }

  /** If the floor does not fit, no other count that is tried does but none. */
  lemma OnlyNoneFits(r: Request, limit: nat)
    requires Size(Keeping(r, Floor(|Actions(r.transcript, 0)|))) > limit
    ensures forall count: nat, q :: Fits(r, count, limit, q) ==> count == 0 && Size(Keeping(r, 0)) <= limit
    ensures |Actions(r.transcript, 0)| == 0 ==> Size(Keeping(r, 0)) > limit
  {
    ActionsAreCounted(r.transcript, 0);
    forall count: nat, q | Fits(r, count, limit, q) ensures count == 0 && Size(Keeping(r, 0)) <= limit {
      ShortenedSize(r, count, q);
      if count >= Floor(|Actions(r.transcript, 0)|) {
        KeepingGrows(r, Floor(|Actions(r.transcript, 0)|), count);
      }
    }
  }

  method FitTranscript(r: Request, limit: nat) returns (fitted: Request)
    ensures IsFitted(r, limit, fitted) && Honest(r, limit, fitted)
  {
    fitted := Fit(r, limit);
    FittedIsHonest(r, limit, fitted);
  }

  method Fit(r: Request, limit: nat) returns (fitted: Request)
    ensures IsFitted(r, limit, fitted)
  {
    var actions := Actions(r.transcript, 0);
    if Size(r) <= limit {
      return r;
    }
    var floor := if |actions| < KEPT_ACTIONS then |actions| else KEPT_ACTIONS;
    var best, count := Search(r, limit, floor);
    KeepingGrows(r, floor, count);
    if Size(best) <= limit {
      assert LargestFit(r, limit, count);
      return best;
    }
    if floor > 0 {
      var zero := Keeping(r, 0);
      if Size(zero) <= limit {
        return zero;
      }
      best := zero;
    }
    fitted := best.(transcript := [], truncated := true, emptied := true);
  }

  /** No count above `high` fits. */
  ghost predicate TooLarge(r: Request, limit: nat, high: int) {
    forall more :: 0 <= more && high < more <= |Actions(r.transcript, 0)| && more <= Ceiling(|Actions(r.transcript, 0)|) ==>
      Size(Keeping(r, more)) > limit
  }

  lemma TooLargeFrom(r: Request, limit: nat, count: nat)
    requires count <= |Actions(r.transcript, 0)| && Size(Keeping(r, count)) > limit
    ensures TooLarge(r, limit, count - 1)
  {
    forall more | 0 <= more && count - 1 < more <= |Actions(r.transcript, 0)| && more <= Ceiling(|Actions(r.transcript, 0)|)
      ensures Size(Keeping(r, more)) > limit
    {
      KeepingGrows(r, count, more);
    }
  }

  method Search(r: Request, limit: nat, floor: nat) returns (best: Request, ghost count: nat)
    requires floor == Floor(|Actions(r.transcript, 0)|)
    ensures floor <= count <= Ceiling(|Actions(r.transcript, 0)|) && best == Keeping(r, count)
    ensures count > floor ==> Size(best) <= limit
    ensures TooLarge(r, limit, count)
  {
    var n := |Actions(r.transcript, 0)|;
    best := Keeping(r, floor);
    var low, high := floor + 1, n - 1;
    count := floor;
    while low <= high
      invariant floor + 1 <= low && low - 1 <= Ceiling(n) && high <= n - 1 && count == low - 1
      invariant best == Keeping(r, count) && (count > floor ==> Size(best) <= limit)
      invariant high >= floor ==> TooLarge(r, limit, high)
      invariant high < floor ==> count == floor && TooLarge(r, limit, floor)
      decreases high - low + 1
    {
      var middle := (low + high) / 2;
      var candidate := Keeping(r, middle);
      if Size(candidate) <= limit {
        best, low, count := candidate, middle + 1, middle;
      } else {
        TooLargeFrom(r, limit, middle);
        high := middle - 1;
      }
    }
  }

  /** It happens: of two actions one fits, and none is kept. */
  lemma OneActionIsNotTried(a: Entry, b: Entry, r: Request, fitted: Request)
    requires a == Entry(true, "a", 10) && b == Entry(true, "b", 10) && r == Request([a, b], false, false, 0)
    requires IsFitted(r, 20, fitted)
    ensures |Actions(r.transcript, 0)| == 2 && Size(r) > 20 && Size(Keeping(r, 1)) <= 20
    ensures Missed(r, 20, fitted) && fitted.transcript == [] && Keeping(r, 1).transcript == [a]
  {
    ActionsOfTwo(a, b);
    KeptOfTwo([0, 1]);
    KeepOfTwo(a, b, Kept([0, 1], 0));
    KeepOfTwo(a, b, Kept([0, 1], 1));
    KeepOfTwo(a, b, Kept([0, 1], 2));
    SumOfTwo(a, b);
    MissesIffOneFits(r, 20, fitted);
  }

  lemma KeptOfTwo(actions: seq<nat>)
    requires |actions| == 2
    ensures Kept(actions, 0) == {} && Kept(actions, 1) == {actions[0]} && Kept(actions, 2) == {actions[0], actions[1]}
  {
    assert actions[2..] == [] && actions[1..] == [actions[1]] && actions[..1] == [actions[0]];
  }

  lemma SumOfTwo(a: Entry, b: Entry)
    ensures Sum([a, b]) == a.bytes + b.bytes && Sum([a]) == a.bytes
  {
    assert [b][1..] == [] && [a][1..] == [];
    assert Sum([b]) == b.bytes && Sum([a]) == a.bytes;
    assert [a, b][1..] == [b];
  }

  lemma ActionsOfTwo(a: Entry, b: Entry)
    requires a.action && b.action
    ensures Actions([a, b], 0) == [0, 1]
  {
    assert [a, b][1..] == [b];
    assert Actions([b], 1) == [1];
  }

  lemma KeepOfTwo(a: Entry, b: Entry, kept: set<nat>)
    requires a.action && b.action
    ensures Keep([a, b], kept, 0) == (if 0 in kept then [a] else []) + if 1 in kept then [b] else []
  {
    assert [a, b][1..] == [b];
    assert Keep([b], kept, 1) == if 1 in kept then [b] else [];
  }
}
