/**
 What the history of an attempt says of its facts: which were elicited before they were raised, and
 how often one that was met was lost again.
*/
module FactHistory {
  datatype Exchange = Exchange(raised: bool, factIds: seq<string>)

  /** An ordinary exchange cites the fact, and no exchange before it raised it. */
  ghost predicate CitedUnraised(exchanges: seq<Exchange>, f: string, k: nat) {
    && k < |exchanges| && !exchanges[k].raised && f in exchanges[k].factIds
    && !RaisedBefore(exchanges, f, k)
  }

  ghost predicate RaisedBefore(exchanges: seq<Exchange>, f: string, k: nat) {
    exists j :: 0 <= j < k && j < |exchanges| && exchanges[j].raised && f in exchanges[j].factIds
  }

  ghost predicate Elicited(exchanges: seq<Exchange>, eligible: set<string>, f: string) {
    f in eligible && exists k :: CitedUnraised(exchanges, f, k)
  }

  lemma OneMoreExchange(exchanges: seq<Exchange>, k: nat, eligible: set<string>, f: string)
    requires k < |exchanges|
    ensures RaisedBefore(exchanges[..k + 1], f, k + 1) <==> RaisedBefore(exchanges[..k], f, k) || (exchanges[k].raised && f in exchanges[k].factIds)
    ensures Elicited(exchanges[..k + 1], eligible, f) <==>
            Elicited(exchanges[..k], eligible, f)
            || (f in eligible && !exchanges[k].raised && f in exchanges[k].factIds && !RaisedBefore(exchanges[..k], f, k))
  {
    var a, b := exchanges[..k], exchanges[..k + 1];
    assert forall j :: 0 <= j < k ==> b[j] == a[j];
    assert b[k] == exchanges[k];
    forall i: nat | i <= k ensures RaisedBefore(b, f, i) <==> RaisedBefore(a, f, i) {
      if RaisedBefore(b, f, i) {
        var j :| 0 <= j < i && j < |b| && b[j].raised && f in b[j].factIds;
        assert a[j].raised;
      }
      if RaisedBefore(a, f, i) {
        var j :| 0 <= j < i && j < |a| && a[j].raised && f in a[j].factIds;
        assert b[j].raised;
      }
    }
    forall i: nat | i < k ensures CitedUnraised(b, f, i) <==> CitedUnraised(a, f, i) {
      assert b[i] == a[i];
    }
    if Elicited(a, eligible, f) {
      var i: nat :| CitedUnraised(a, f, i);
      assert CitedUnraised(b, f, i);
    }
    if f in eligible && !exchanges[k].raised && f in exchanges[k].factIds && !RaisedBefore(a, f, k) {
      assert CitedUnraised(b, f, k);
    }
    if Elicited(b, eligible, f) {
      var i: nat :| CitedUnraised(b, f, i);
      assert i < k ==> CitedUnraised(a, f, i);
    }
    RaisedNext(exchanges, k, f);
  }

  lemma RaisedNext(exchanges: seq<Exchange>, k: nat, f: string)
    requires k < |exchanges|
    ensures RaisedBefore(exchanges[..k + 1], f, k + 1) <==> RaisedBefore(exchanges[..k], f, k) || (exchanges[k].raised && f in exchanges[k].factIds)
  {
    var a, b := exchanges[..k], exchanges[..k + 1];
    if RaisedBefore(a, f, k) {
      var j :| 0 <= j < k && a[j].raised && f in a[j].factIds;
      assert b[j].raised && f in b[j].factIds;
    }
    if RaisedBefore(b, f, k + 1) {
      var j :| 0 <= j < k + 1 && b[j].raised && f in b[j].factIds;
      assert j < k ==> a[j].raised && f in a[j].factIds;
    }
    assert b[k] == exchanges[k];
  }

  ghost predicate Tracked(exchanges: seq<Exchange>, eligible: set<string>, raised: set<string>, elicited: set<string>) {
    && (forall f :: f in raised <==> RaisedBefore(exchanges, f, |exchanges|))
    && (forall f :: f in elicited <==> Elicited(exchanges, eligible, f))
  }

  lemma TrackedNext(exchanges: seq<Exchange>, k: nat, eligible: set<string>, raised: set<string>, elicited: set<string>,
                    raised': set<string>, elicited': set<string>)
    requires k < |exchanges| && Tracked(exchanges[..k], eligible, raised, elicited)
    requires forall f :: f in raised' <==> f in raised || (exchanges[k].raised && f in exchanges[k].factIds)
    requires forall f :: f in elicited' <==>
                         f in elicited || (!exchanges[k].raised && f in exchanges[k].factIds && f in eligible && f !in raised)
    ensures Tracked(exchanges[..k + 1], eligible, raised', elicited')
  {
    var next := exchanges[..k + 1];
    forall f ensures f in raised' <==> RaisedBefore(next, f, |next|) {
      RaisedNext(exchanges, k, f);
      assert |next| == k + 1;
    }
    forall f ensures f in elicited' <==> Elicited(next, eligible, f) {
      OneMoreExchange(exchanges, k, eligible, f);
      assert f in raised <==> RaisedBefore(exchanges[..k], f, k);
    }
  }

  /** The elicited facts are exactly the eligible ones that an ordinary exchange cites before any
      exchange raises them. */
  method ElicitedFacts(eligible: set<string>, exchanges: seq<Exchange>) returns (elicited: set<string>)
    ensures forall f :: f in elicited <==> Elicited(exchanges, eligible, f)
  {
    var raised: set<string> := {};
    elicited := {};
    for k := 0 to |exchanges|
      invariant Tracked(exchanges[..k], eligible, raised, elicited)
    {
      var e := exchanges[k];
      ghost var before, cited := raised, elicited;
      if e.raised {
        raised := raised + set f | f in e.factIds;
      } else {
        elicited := elicited + set f | f in e.factIds && f in eligible && f !in raised;
      }
      TrackedNext(exchanges, k, eligible, before, cited, raised, elicited);
    }
    assert exchanges[..|exchanges|] == exchanges;
  }

  datatype Verdict = Met | Unmet | Unclear

  datatype Judgment = Judgment(factId: string, verdict: Verdict)

  datatype Inspection = Inspection(completed: bool, snapshot: string, judgments: seq<Judgment>)

  function Completed(inspections: seq<Inspection>): (c: seq<Inspection>)
    ensures |c| <= |inspections|
    ensures forall i :: i in c ==> i in inspections
  {
    if inspections == [] then []
    else (if inspections[0].completed then [inspections[0]] else []) + Completed(inspections[1..])
  }

  lemma {:induction false} CompletedLast(init: seq<Inspection>, last: Inspection)
    ensures Completed(init + [last]) == Completed(init) + if last.completed then [last] else []
  {
    if init != [] {
      CompletedLast(init[1..], last);
      assert (init + [last])[1..] == init[1..] + [last];
    }
  }

  /** The positions of some of the inspections, in order. */
  predicate Positions(inspections: seq<Inspection>, positions: seq<nat>, c: seq<Inspection>) {
    && |positions| == |c|
    && (forall j :: 0 <= j < |positions| ==> positions[j] < |inspections| && c[j] == inspections[positions[j]])
    && forall j, k :: 0 <= j < k < |positions| ==> positions[j] < positions[k]
  }

  /** Exactly the completed inspections are kept, in their order. */
  lemma {:induction false} CompletedAreKept(inspections: seq<Inspection>) returns (positions: seq<nat>)
    ensures Positions(inspections, positions, Completed(inspections))
    ensures forall i :: 0 <= i < |inspections| ==> (inspections[i].completed <==> i in positions)
  {
    positions := [];
    if inspections != [] {
      var n, init := |inspections| - 1, inspections[..|inspections| - 1];
      var before := CompletedAreKept(init);
      assert inspections == init + [inspections[n]];
      CompletedLast(init, inspections[n]);
      positions := before + if inspections[n].completed then [n] else [];
      forall i | 0 <= i < |inspections| ensures inspections[i].completed <==> i in positions {
        if i < n {
          assert inspections[i] == init[i];
        }
      }
    }
  }

  /** Where the fact was lost: the inspection and the judgment that calls it unmet, where the inspection
      before, of another snapshot, calls it met. */
  ghost predicate LostAt(c: seq<Inspection>, f: string, k: nat, j: nat) {
    && 0 < k < |c| && j < |c[k].judgments| && c[k].judgments[j] == Judgment(f, Unmet)
    && c[k - 1].snapshot != c[k].snapshot && Judgment(f, Met) in c[k - 1].judgments
  }

  ghost function LossesOf(c: seq<Inspection>, f: string): set<(nat, nat)> {
    set k: nat, j: nat | k < |c| && j < |c[k].judgments| && LostAt(c, f, k, j) :: (k, j)
  }

  /** The losses counted are all there are. */
  lemma {:induction false} LossesAreCounted(c: seq<Inspection>, f: string)
    ensures AllLosses(c, f) == |LossesOf(c, f)|
  {
    if |c| < 2 {
      assert LossesOf(c, f) == {};
    } else {
      var n, init := |c| - 1, c[..|c| - 1];
      LossesAreCounted(init, f);
      LossesSplit(c, f);
      LastLosses(c, f, |c[n].judgments|);
      assert c[n].judgments[..|c[n].judgments|] == c[n].judgments;
    }
  }

  lemma LossesSplit(c: seq<Inspection>, f: string)
    requires |c| >= 2
    ensures var n, init := |c| - 1, c[..|c| - 1];
            var last := set j: nat | j < |c[n].judgments| && LostAt(c, f, n, j) :: (n, j);
            LossesOf(c, f) == LossesOf(init, f) + last && LossesOf(init, f) !! last
  {
    var n, init := |c| - 1, c[..|c| - 1];
    forall k: nat, j: nat | k < n ensures LostAt(c, f, k, j) <==> LostAt(init, f, k, j) {}
  }

  lemma {:induction false} LastLosses(c: seq<Inspection>, f: string, m: nat)
    requires |c| >= 2 && m <= |c[|c| - 1].judgments|
    ensures var n := |c| - 1;
            |set j: nat | j < m && LostAt(c, f, n, j) :: (n, j)|
            == if c[n - 1].snapshot != c[n].snapshot && Judgment(f, Met) in c[n - 1].judgments then Times(c[n].judgments[..m], f, Unmet) else 0
  {
    var n := |c| - 1;
    var now := set j: nat | j < m && LostAt(c, f, n, j) :: (n, j);
    if m == 0 {
      assert now == {};
    } else {
      LastLosses(c, f, m - 1);
      var before := set j: nat | j < m - 1 && LostAt(c, f, n, j) :: (n, j);
      assert now == before + if LostAt(c, f, n, m - 1) then {(n, m - 1)} else {};
      assert c[n].judgments[..m][..m - 1] == c[n].judgments[..m - 1];
    }
  }

  /** How often a list of judgments gives the fact that verdict. */
  function Times(judgments: seq<Judgment>, f: string, v: Verdict): nat {
    if judgments == [] then 0
    else Times(judgments[..|judgments| - 1], f, v) + if judgments[|judgments| - 1] == Judgment(f, v) then 1 else 0
  }

  /** How often a fact met before is unmet after, on another snapshot. */
  function Losses(before: Inspection, after: Inspection, f: string): nat {
    if before.snapshot != after.snapshot && Judgment(f, Met) in before.judgments then Times(after.judgments, f, Unmet) else 0
  }

  function AllLosses(c: seq<Inspection>, f: string): nat {
    if |c| < 2 then 0 else AllLosses(c[..|c| - 1], f) + Losses(c[|c| - 2], c[|c| - 1], f)
  }

  predicate DistinctFacts(i: Inspection) {
    forall j, k :: 0 <= j < k < |i.judgments| ==> i.judgments[j].factId != i.judgments[k].factId
  }

  lemma {:induction false} TimesUnjudged(judgments: seq<Judgment>, f: string, v: Verdict)
    requires Judgment(f, v) !in judgments
    ensures Times(judgments, f, v) == 0
  {
    if judgments != [] {
      TimesUnjudged(judgments[..|judgments| - 1], f, v);
    }
  }

  lemma {:induction false} TimesAtMostOnce(judgments: seq<Judgment>, f: string, v: Verdict)
    requires forall j, k :: 0 <= j < k < |judgments| ==> judgments[j].factId != judgments[k].factId
    ensures Times(judgments, f, v) <= 1
  {
    if judgments != [] {
      var init := judgments[..|judgments| - 1];
      TimesAtMostOnce(init, f, v);
      if judgments[|judgments| - 1] == Judgment(f, v) {
        TimesUnjudged(init, f, v);
      }
    }
  }

  /** The judgments call the fact unmet at most once, and not besides calling it met. */
  predicate OneSided(judgments: seq<Judgment>, f: string) {
    Times(judgments, f, Unmet) <= 1 && !(Judgment(f, Met) in judgments && Judgment(f, Unmet) in judgments)
  }

  lemma DistinctIsOneSided(i: Inspection, f: string)
    requires DistinctFacts(i)
    ensures OneSided(i.judgments, f)
  {
    TimesAtMostOnce(i.judgments, f, Unmet);
  }

  /** A fact is lost at most once with each inspection, and not while it is not met: so after `n`
      inspections at most floor(n / 2) times. */
  lemma {:induction false} LossesAreBounded(c: seq<Inspection>, f: string)
    requires forall i :: 0 <= i < |c| ==> OneSided(c[i].judgments, f)
    ensures 2 * AllLosses(c, f) <= |c|
    ensures c != [] && Judgment(f, Met) in c[|c| - 1].judgments ==> 2 * AllLosses(c, f) < |c|
  {
    if |c| >= 2 {
      var init, after := c[..|c| - 1], c[|c| - 1];
      LossesAreBounded(init, f);
      if Judgment(f, Met) in after.judgments {
        TimesUnjudged(after.judgments, f, Unmet);
      }
    }
  }

  /** A history whose inspections all found one of these lists of judgments. */
  ghost predicate Drawn(c: seq<Inspection>, lists: set<seq<Judgment>>) {
    forall i :: 0 <= i < |c| ==> c[i].judgments in lists
  }

  ghost predicate BoundHolds(lists: set<seq<Judgment>>, f: string) {
    forall c: seq<Inspection> :: Drawn(c, lists) ==> 2 * AllLosses(c, f) <= |c|
  }

  ghost predicate NeverMet(lists: set<seq<Judgment>>, f: string) {
    forall js :: js in lists ==> Judgment(f, Met) !in js
  }

  ghost predicate AllOneSided(lists: set<seq<Judgment>>, f: string) {
    forall js :: js in lists ==> OneSided(js, f)
  }

  /** Exactly when the bound holds of every history of such lists: when none of them calls the fact met,
      or each of them calls it unmet at most once and not besides calling it met. */
  lemma BoundHoldsIffOneSided(lists: set<seq<Judgment>>, f: string)
    ensures BoundHolds(lists, f) <==> NeverMet(lists, f) || AllOneSided(lists, f)
  {
    if NeverMet(lists, f) {
      forall c: seq<Inspection> | Drawn(c, lists) ensures 2 * AllLosses(c, f) <= |c| {
        NeverLost(c, lists, f);
      }
    } else if AllOneSided(lists, f) {
      forall c: seq<Inspection> | Drawn(c, lists) ensures 2 * AllLosses(c, f) <= |c| {
        LossesAreBounded(c, f);
      }
    } else {
      var met, js :| met in lists && Judgment(f, Met) in met && js in lists && !OneSided(js, f);
      var c := BreakingHistory(met, js, f);
      assert Drawn(c, lists);
    }
  }

  lemma {:induction false} NeverLost(c: seq<Inspection>, lists: set<seq<Judgment>>, f: string)
    requires Drawn(c, lists) && NeverMet(lists, f)
    ensures AllLosses(c, f) == 0
  {
    if |c| >= 2 {
      NeverLost(c[..|c| - 1], lists, f);
      assert c[|c| - 2].judgments in lists;
    }
  }

  /** A history that exceeds the bound, from one list that calls the fact met and one that is not
      one-sided. */
  lemma BreakingHistory(met: seq<Judgment>, js: seq<Judgment>, f: string) returns (c: seq<Inspection>)
    requires Judgment(f, Met) in met && !OneSided(js, f)
    ensures 2 * AllLosses(c, f) > |c| && forall i :: 0 <= i < |c| ==> c[i].judgments == met || c[i].judgments == js
  {
    if Times(js, f, Unmet) >= 2 {
      var a, b := Inspection(true, "a", met), Inspection(true, "b", js);
      c := [a, b];
      assert c[..1] == [a] && AllLosses([a], f) == 0;
    } else {
      TimesJudged(js, f, Unmet);
      var a, b := Inspection(true, "a", js), Inspection(true, "b", js);
      c := [a, b, a];
      assert c[..2] == [a, b] && [a, b][..1] == [a];
      assert AllLosses([a, b], f) == AllLosses([a], f) + Losses(a, b, f);
    }
  }

  lemma {:induction false} TimesJudged(judgments: seq<Judgment>, f: string, v: Verdict)
    requires Judgment(f, v) in judgments
    ensures Times(judgments, f, v) >= 1
  {
    var init, last := judgments[..|judgments| - 1], judgments[|judgments| - 1];
    if last != Judgment(f, v) {
      TimesJudged(init, f, v);
    }
  }

  /** Repeated facts do break the bound. */
  lemma RepeatedFactsBreakTheBound(a: Inspection, b: Inspection, both: seq<Judgment>)
    requires both == [Judgment("f", Met), Judgment("f", Unmet)]
    requires a == Inspection(true, "a", both) && b == Inspection(true, "b", both)
    ensures 2 * AllLosses([a, b, a], "f") > 3
  {
    assert Times(both, "f", Unmet) == 1 by {
      assert both[..1] == [Judgment("f", Met)];
      TimesUnjudged(both[..1], "f", Unmet);
    }
    assert Judgment("f", Met) in both by {
      assert both[0] == Judgment("f", Met);
    }
    var c := [a, b, a];
    assert c[..2] == [a, b];
    assert AllLosses([a, b], "f") == 1 by {
      assert [a, b][..1] == [a];
    }
  }

  function Count(counts: map<string, nat>, f: string): nat {
    if f in counts then counts[f] else 0
  }

  method CountLosses(before: Inspection, after: Inspection, counts: map<string, nat>) returns (r: map<string, nat>)
    requires before.snapshot != after.snapshot
    ensures forall f :: Count(r, f) == Count(counts, f) + Losses(before, after, f)
    ensures (forall f :: f in counts ==> counts[f] > 0) ==> forall f :: f in r ==> r[f] > 0
  {
    var met := set j | j in before.judgments && j.verdict == Met :: j.factId;
    assert forall f :: f in met <==> Judgment(f, Met) in before.judgments;
    r := counts;
    var js := after.judgments;
    for k := 0 to |js|
      invariant forall f :: Count(r, f) == Count(counts, f) + if f in met then Times(js[..k], f, Unmet) else 0
      invariant (forall f :: f in counts ==> counts[f] > 0) ==> forall f :: f in r ==> r[f] > 0
    {
      var j := js[k];
      assert js[..k + 1][..k] == js[..k];
      if j.verdict == Unmet && j.factId in met {
        r := r[j.factId := Count(r, j.factId) + 1];
      }
    }
    assert js[..|js|] == js;
  }

  /** How often each fact was lost: at most every other time if no inspection both calls it met and
      unmet or calls it unmet more than once, which repeated facts may. */
  method Regressions(inspections: seq<Inspection>) returns (counts: map<string, nat>)
    ensures forall f :: Count(counts, f) == AllLosses(Completed(inspections), f)
    ensures forall f :: f in counts ==> counts[f] > 0
    ensures forall f :: f in counts && (forall i :: 0 <= i < |inspections| ==> OneSided(inspections[i].judgments, f)) ==>
                          2 * counts[f] <= |Completed(inspections)|
  {
    var c := Completed(inspections);
    counts := map[];
    var k := 1;
    while k < |c|
      invariant 1 <= k && (k <= |c| || |c| == 0)
      invariant forall f :: Count(counts, f) == AllLosses(c[..if k <= |c| then k else |c|], f)
      invariant forall f :: f in counts ==> counts[f] > 0
    {
      assert c[..k + 1][..k] == c[..k];
      ghost var was := counts;
      if c[k - 1].snapshot != c[k].snapshot {
        counts := CountLosses(c[k - 1], c[k], counts);
      }
      forall f ensures Count(counts, f) == AllLosses(c[..k + 1], f) {
        assert Count(was, f) == AllLosses(c[..k], f);
      }
      k := k + 1;
    }
    assert c[..|c|] == c;
    forall f | f in counts && (forall i :: 0 <= i < |inspections| ==> OneSided(inspections[i].judgments, f))
      ensures 2 * counts[f] <= |c|
    {
      forall i | 0 <= i < |c| ensures OneSided(c[i].judgments, f) {
        assert c[i] in inspections;
      }
      LossesAreBounded(c, f);
      assert Count(counts, f) == counts[f];
    }
  }
}
