/**
 Recognising a commit-message convention: the fewest prefix tokens that together classify nine in ten
 of the prefixed subjects. Shares are compared exactly, as fractions.
*/
module CommitConvention {
  import opened Options

  const MIN_SAMPLE: nat := 20
  const MAX_VOCABULARY: nat := 12

  type Token = string

  /** A prefix token and the number of subjects that carry it. */
  datatype Entry = Entry(token: Token, commits: nat)

  datatype Reason = Detected | TooFewSampled | TooFewPrefixed | TooManyTokens | NoSmallSet

  datatype Report = Report(detected: bool, sampled: nat, prefixed: nat, vocabulary: seq<Entry>, reason: Reason)

  /** The tokens of the subjects that have one. */
  function Tokens(subjects: seq<Option<Token>>): (tokens: seq<Token>)
    ensures |tokens| <= |subjects|
  {
    if subjects == [] then []
    else (match subjects[0] { case Some(t) => [t] case None => [] }) + Tokens(subjects[1..])
  }

  /** How many of the subjects a set of tokens classifies. */
  function Covered(tokens: seq<Token>, s: set<Token>): nat {
    if tokens == [] then 0 else (if tokens[0] in s then 1 else 0) + Covered(tokens[1..], s)
  }

  lemma {:induction false} TokensLast(subjects: seq<Option<Token>>)
    requires subjects != []
    ensures var init, last := subjects[..|subjects| - 1], subjects[|subjects| - 1];
            Tokens(subjects) == Tokens(init) + match last { case Some(t) => [t] case None => [] }
  {
    if |subjects| > 1 {
      TokensLast(subjects[1..]);
      assert subjects[1..][..|subjects| - 2] == subjects[..|subjects| - 1][1..];
    }
  }

  lemma {:induction false} CoveredAppend(tokens: seq<Token>, t: Token, s: set<Token>)
    ensures Covered(tokens + [t], s) == Covered(tokens, s) + if t in s then 1 else 0
  {
    if tokens == [] {
      assert [] + [t] == [t];
    } else {
      CoveredAppend(tokens[1..], t, s);
      assert (tokens + [t])[1..] == tokens[1..] + [t];
    }
  }

  ghost function Prefixed(subjects: seq<Option<Token>>): set<nat> {
    set i: nat | i < |subjects| && subjects[i].Some?
  }

  ghost function PrefixedIn(subjects: seq<Option<Token>>, s: set<Token>): set<nat> {
    set i: nat | i < |subjects| && subjects[i].Some? && subjects[i].value in s
  }

  lemma PrefixedLast(subjects: seq<Option<Token>>, s: set<Token>)
    requires subjects != []
    ensures var init, last := subjects[..|subjects| - 1], subjects[|subjects| - 1];
            && |Prefixed(subjects)| == |Prefixed(init)| + (if last.Some? then 1 else 0)
            && |PrefixedIn(subjects, s)| == |PrefixedIn(init, s)| + if last.Some? && last.value in s then 1 else 0
  {
    var n, last := |subjects| - 1, subjects[|subjects| - 1];
    PrefixedSplit(subjects);
    PrefixedInSplit(subjects, s);
    OneMore(Prefixed(subjects[..n]), n, last.Some?);
    OneMore(PrefixedIn(subjects[..n], s), n, last.Some? && last.value in s);
  }

  lemma PrefixedSplit(subjects: seq<Option<Token>>)
    requires subjects != []
    ensures var n := |subjects| - 1; Prefixed(subjects) == Prefixed(subjects[..n]) + if subjects[n].Some? then {n} else {}
  {
  }

  lemma PrefixedInSplit(subjects: seq<Option<Token>>, s: set<Token>)
    requires subjects != []
    ensures var n := |subjects| - 1;
            PrefixedIn(subjects, s) == PrefixedIn(subjects[..n], s) + if subjects[n].Some? && subjects[n].value in s then {n} else {}
  {
  }

  lemma OneMore(a: set<nat>, n: nat, more: bool)
    requires n !in a
    ensures |a + if more then {n} else {}| == |a| + if more then 1 else 0
  {
    assert a + {} == a;
  }

  /** Tokens, and those that a set of them classifies, are counted over the subjects. */
  lemma {:induction false} TokensAreCounted(subjects: seq<Option<Token>>, s: set<Token>)
    ensures |Tokens(subjects)| == |Prefixed(subjects)| && Covered(Tokens(subjects), s) == |PrefixedIn(subjects, s)|
  {
    if subjects == [] {
      assert Prefixed(subjects) == {} && PrefixedIn(subjects, s) == {};
    } else {
      var init, last := subjects[..|subjects| - 1], subjects[|subjects| - 1];
      TokensAreCounted(init, s);
      TokensLast(subjects);
      PrefixedLast(subjects, s);
      if last.Some? {
        CoveredAppend(Tokens(init), last.value, s);
      } else {
        assert Tokens(init) + [] == Tokens(init);
      }
    }
  }

  /** Nine in ten. */
  predicate Covers(tokens: seq<Token>, s: set<Token>) {
    10 * Covered(tokens, s) >= 9 * |tokens|
  }

  /** The distinct tokens and their counts, most common first. */
  ghost predicate IsRanking(tokens: seq<Token>, ranked: seq<Entry>) {
    && (forall i :: 0 <= i < |ranked| ==> ranked[i].commits == Covered(tokens, {ranked[i].token}))
    && Descending(ranked) && Distinct(ranked)
    && (forall i :: 0 <= i < |tokens| ==> tokens[i] in Names(ranked))
  }

  ghost predicate Descending(ranked: seq<Entry>) {
    forall i, j :: 0 <= i < j < |ranked| ==> ranked[i].commits >= ranked[j].commits
  }

  ghost predicate Distinct(ranked: seq<Entry>) {
    forall i, j :: 0 <= i < j < |ranked| ==> ranked[i].token != ranked[j].token
  }

  function Names(ranked: seq<Entry>): set<Token> {
    set e | e in ranked :: e.token
  }

  function Sum(ranked: seq<Entry>): nat {
    if ranked == [] then 0 else ranked[0].commits + Sum(ranked[1..])
  }

  /** What the entries with a token in the set count together. */
  function SumIn(ranked: seq<Entry>, s: set<Token>): nat {
    if ranked == [] then 0 else (if ranked[0].token in s then ranked[0].commits else 0) + SumIn(ranked[1..], s)
  }

  function Hits(ranked: seq<Entry>, s: set<Token>): nat {
    if ranked == [] then 0 else (if ranked[0].token in s then 1 else 0) + Hits(ranked[1..], s)
  }

  lemma {:induction false} SumAppend(ranked: seq<Entry>, e: Entry)
    ensures Sum(ranked + [e]) == Sum(ranked) + e.commits
  {
    if ranked == [] {
      assert [] + [e] == [e];
    } else {
      SumAppend(ranked[1..], e);
      assert (ranked + [e])[1..] == ranked[1..] + [e];
    }
  }

  lemma SumPrefix(ranked: seq<Entry>, k: nat)
    requires k < |ranked|
    ensures Sum(ranked[..k + 1]) == Sum(ranked[..k]) + ranked[k].commits
  {
    assert ranked[..k + 1] == ranked[..k] + [ranked[k]];
    SumAppend(ranked[..k], ranked[k]);
  }

  lemma SumHead(ranked: seq<Entry>, k: nat)
    requires 0 < k <= |ranked|
    ensures Sum(ranked[..k]) == ranked[0].commits + Sum(ranked[1..][..k - 1])
  {
    assert ranked[..k][1..] == ranked[1..][..k - 1];
  }

  /** Of a ranking, no choice of entries counts more than as many of the first. */
  lemma {:induction false} FirstAreMost(ranked: seq<Entry>, s: set<Token>, k: nat)
    requires Descending(ranked) && Hits(ranked, s) <= k <= |ranked|
    ensures SumIn(ranked, s) <= Sum(ranked[..k])
  {
    if ranked != [] {
      var rest := ranked[1..];
      if ranked[0].token in s {
        FirstAreMost(rest, s, k - 1);
        SumHead(ranked, k);
      } else if k <= |rest| {
        FirstAreMost(rest, s, k);
        if k > 0 {
          SumHead(ranked, k);
          SumPrefix(rest, k - 1);
        }
      } else {
        HitsBound(rest, s);
        FirstAreMost(rest, s, k - 1);
        SumHead(ranked, k);
      }
    }
  }

  lemma {:induction false} HitsBound(ranked: seq<Entry>, s: set<Token>)
    ensures Hits(ranked, s) <= |ranked|
  {
    if ranked != [] {
      HitsBound(ranked[1..], s);
    }
  }

  lemma {:induction false} HitsAtMost(ranked: seq<Entry>, s: set<Token>)
    requires Distinct(ranked)
    ensures Hits(ranked, s) <= |s|
  {
    if ranked != [] {
      var t := ranked[0].token;
      HitsAtMost(ranked[1..], s - {t});
      HitsWithout(ranked[1..], s, t);
    }
  }

  lemma {:induction false} HitsWithout(ranked: seq<Entry>, s: set<Token>, t: Token)
    requires forall i :: 0 <= i < |ranked| ==> ranked[i].token != t
    ensures Hits(ranked, s - {t}) == Hits(ranked, s)
  {
    if ranked != [] {
      HitsWithout(ranked[1..], s, t);
    }
  }

  lemma {:induction false} CoveredPlus(tokens: seq<Token>, s: set<Token>, t: Token)
    requires t !in s
    ensures Covered(tokens, s + {t}) == Covered(tokens, s) + Covered(tokens, {t})
  {
    if tokens != [] {
      CoveredPlus(tokens[1..], s, t);
    }
  }

  lemma {:induction false} CoveredNone(tokens: seq<Token>)
    ensures Covered(tokens, {}) == 0
  {
    if tokens != [] {
      CoveredNone(tokens[1..]);
    }
  }

  /** Tokens that do not occur cover nothing. */
  lemma {:induction false} CoveredWithin(tokens: seq<Token>, s: set<Token>, all: set<Token>)
    requires forall i :: 0 <= i < |tokens| ==> tokens[i] in all
    ensures Covered(tokens, s) == Covered(tokens, s * all)
  {
    if tokens != [] {
      CoveredWithin(tokens[1..], s, all);
    }
  }

  lemma {:induction false} SumInIsCovered(tokens: seq<Token>, ranked: seq<Entry>, s: set<Token>)
    requires Distinct(ranked) && forall i :: 0 <= i < |ranked| ==> ranked[i].commits == Covered(tokens, {ranked[i].token})
    ensures SumIn(ranked, s) == Covered(tokens, s * Names(ranked))
  {
    if ranked == [] {
      assert s * Names(ranked) == {};
      CoveredNone(tokens);
    } else {
      var t, rest := ranked[0].token, ranked[1..];
      SumInIsCovered(tokens, rest, s);
      assert t !in Names(rest);
      NamesHead(ranked);
      if t in s {
        CoveredPlus(tokens, s * Names(rest), t);
        assert s * Names(ranked) == s * Names(rest) + {t};
      } else {
        assert s * Names(ranked) == s * Names(rest);
      }
    }
  }

  lemma NamesHead(ranked: seq<Entry>)
    requires ranked != []
    ensures Names(ranked) == {ranked[0].token} + Names(ranked[1..])
  {
    assert ranked == [ranked[0]] + ranked[1..];
  }

  /** Any `k` tokens cover at most what the `k` most common do. */
  lemma MostCommonCoverMost(tokens: seq<Token>, ranked: seq<Entry>, s: set<Token>, k: nat)
    requires IsRanking(tokens, ranked) && |s| <= k <= |ranked|
    ensures Covered(tokens, s) <= Sum(ranked[..k])
  {
    CoveredWithin(tokens, s, Names(ranked));
    SumInIsCovered(tokens, ranked, s);
    HitsAtMost(ranked, s);
    FirstAreMost(ranked, s, k);
  }

  /** And the `k` most common cover what they count. */
  lemma MostCommonCover(tokens: seq<Token>, ranked: seq<Entry>, k: nat)
    requires IsRanking(tokens, ranked) && k <= |ranked|
    ensures Covered(tokens, Names(ranked[..k])) == Sum(ranked[..k]) && |Names(ranked[..k])| == k
  {
    var top := ranked[..k];
    SumInIsCovered(tokens, top, Names(top));
    assert Names(top) * Names(top) == Names(top);
    SumInAll(top, Names(top));
    NamesCount(top);
  }

  lemma {:induction false} SumInAll(ranked: seq<Entry>, s: set<Token>)
    requires Names(ranked) <= s
    ensures SumIn(ranked, s) == Sum(ranked)
  {
    if ranked != [] {
      NamesHead(ranked);
      SumInAll(ranked[1..], s);
    }
  }

  lemma {:induction false} NamesCount(ranked: seq<Entry>)
    requires Distinct(ranked)
    ensures |Names(ranked)| == |ranked|
  {
    if ranked != [] {
      NamesHead(ranked);
      NamesCount(ranked[1..]);
      assert ranked[0].token !in Names(ranked[1..]);
    }
  }

  lemma {:induction false} CoveredAll(tokens: seq<Token>, s: set<Token>)
    requires forall i :: 0 <= i < |tokens| ==> tokens[i] in s
    ensures Covered(tokens, s) == |tokens|
  {
    if tokens != [] {
      CoveredAll(tokens[1..], s);
    }
  }

  /** Some choice of at most this many tokens covers the target. */
  ghost predicate SomeCovers(tokens: seq<Token>, most: nat) {
    exists s: set<Token> :: |s| <= most && Covers(tokens, s)
  }

  /** The greedy vocabulary: it covers the target, and no smaller set of tokens does. */
  method Select(tokens: seq<Token>, ranked: seq<Entry>) returns (selected: seq<Entry>, covered: nat)
    requires IsRanking(tokens, ranked)
    ensures selected <= ranked
    ensures covered == Covered(tokens, Names(selected)) && Covers(tokens, Names(selected))
    ensures forall s: set<Token> :: |s| < |selected| ==> !Covers(tokens, s)
  {
    selected, covered := [], 0;
    var i := 0;
    while i < |ranked| && 10 * covered < 9 * |tokens|
      invariant i <= |ranked| && selected == ranked[..i] && covered == Sum(selected)
      invariant i > 0 ==> 10 * Sum(ranked[..i - 1]) < 9 * |tokens|
    {
      SumPrefix(ranked, i);
      assert ranked[..i + 1] == ranked[..i] + [ranked[i]];
      selected := selected + [ranked[i]];
      covered := covered + ranked[i].commits;
      i := i + 1;
    }
    MostCommonCover(tokens, ranked, i);
    if i == |ranked| {
      assert selected == ranked;
      CoveredAll(tokens, Names(ranked));
    }
    forall s: set<Token> | |s| < |selected| ensures !Covers(tokens, s) {
      MostCommonCoverMost(tokens, ranked, s, i - 1);
    }
  }

  /** A convention is detected exactly when at least twenty subjects were sampled, six in ten have a
      prefix, and some dozen tokens at most classify nine in ten of those. Otherwise the reason given
      is true: in particular, when more than a dozen tokens are said to be needed, they are. The
      vocabulary reported is one of fewest tokens, or the first dozen of one; and that no small set
      covers the subjects is a reason that is never given. */
  method Convention(subjects: seq<Option<Token>>, ranked: seq<Entry>) returns (report: Report)
    requires IsRanking(Tokens(subjects), ranked)
    ensures report.sampled == |subjects| && report.prefixed == |Tokens(subjects)| == |Prefixed(subjects)|
    ensures report.detected <==> && |subjects| >= MIN_SAMPLE && 10 * report.prefixed >= 6 * |subjects|
                                 && SomeCovers(Tokens(subjects), MAX_VOCABULARY)
    ensures report.detected ==>
              && Covers(Tokens(subjects), Names(report.vocabulary))
              && forall s: set<Token> :: |s| < |report.vocabulary| ==> !Covers(Tokens(subjects), s)
    ensures report.vocabulary <= ranked && |report.vocabulary| <= MAX_VOCABULARY
    ensures match report.reason
            case Detected => report.detected
            case TooFewSampled => |subjects| < MIN_SAMPLE
            case TooFewPrefixed => 10 * report.prefixed < 6 * |subjects|
            case TooManyTokens => !SomeCovers(Tokens(subjects), MAX_VOCABULARY)
            case NoSmallSet => false
  {
    var tokens := Tokens(subjects);
    var sampled, prefixed := |subjects|, |tokens|;
    var selected, covered := Select(tokens, ranked);
    NamesCount(selected);
    TokensAreCounted(subjects, {});
    var enough := 10 * prefixed >= 6 * sampled;
    var detected := sampled >= MIN_SAMPLE && enough && selected != [] && |selected| <= MAX_VOCABULARY
                    && prefixed > 0 && 10 * covered >= 9 * prefixed;
    CoveredNone(tokens);
    assert Names([]) == {};
    if |selected| <= MAX_VOCABULARY {
      assert SomeCovers(tokens, MAX_VOCABULARY);
    }
    var reason := if detected then Detected
                  else if sampled < MIN_SAMPLE then TooFewSampled
                  else if !enough then TooFewPrefixed
                  else if |selected| > MAX_VOCABULARY then TooManyTokens
                  else NoSmallSet;
    report := Report(detected, sampled, prefixed,
                     if |selected| <= MAX_VOCABULARY then selected else selected[..MAX_VOCABULARY], reason);
  }
}
