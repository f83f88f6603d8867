/**
 Owning the processes an attempt starts. One thread observes processes while another publishes what
 was observed; the lock is released while the publisher's callback runs, so observations interleave
 with publications in any order.
*/
module ProcessOwnership {
  import opened Options

  /** A process is told from its successors with the same number by the time it was created. */
  datatype Key = ProcessKey(pid: int, created: int)

  datatype Identity = Identity(pid: int, created: int, parent: int)
  {
    function Id(): Key {
      ProcessKey(pid, created)
    }
  }

  datatype Limits = Limits(processes: nat, observations: nat)

  /** What is owned, with everything that was ever observed and ever accepted by the callback. */
  datatype State = State(processes: set<Key>, identities: map<Key, Identity>, unpublished: map<Key, Identity>,
                         observed: set<Identity>, delivered: set<Identity>)

  const INITIAL := State({}, map[], map[], {}, {})

  datatype Event =
    | Pruned(gone: set<Key>)
    | Observed(identity: Identity)
    | Delivered(batch: seq<Identity>)
    | Retired(batch: seq<Identity>)

  function Elements(batch: seq<Identity>): set<Identity> {
    set i | i in batch
  }

  function Keys(batch: seq<Identity>): set<Key> {
    set i | i in batch :: i.Id()
  }

  ghost predicate KeyDelivered(s: State, k: Key) {
    exists i :: i in s.delivered && i.Id() == k
  }

  /** A batch is retired only after the callback accepted it. */
  ghost predicate Enabled(s: State, limits: Limits, e: Event) {
    match e
    case Pruned(_) => true
    case Observed(i) => i.Id() !in s.processes && |s.processes| < limits.processes && |s.identities| < limits.observations
    case Delivered(batch) => forall i :: i in batch ==> i in s.observed
    case Retired(batch) => forall i :: i in batch ==> i in s.delivered
  }

  function After(s: State, e: Event): State {
    match e
    case Pruned(gone) => s.(processes := s.processes - gone)
    case Observed(i) => s.(processes := s.processes + {i.Id()}, identities := s.identities[i.Id() := i],
                           unpublished := s.unpublished[i.Id() := i], observed := s.observed + {i})
    case Delivered(batch) => s.(delivered := s.delivered + Elements(batch))
    case Retired(batch) => s.(unpublished := s.unpublished - Keys(batch))
  }

  ghost predicate Named(m: map<Key, Identity>, s: State) {
    m.Keys <= s.identities.Keys && forall k :: k in m ==> m[k].Id() == k && m[k] in s.observed
  }

  /** Whatever was observed is known, and published or still to be published. */
  ghost predicate NothingLost(s: State) {
    forall i :: i in s.observed ==> i.Id() in s.identities && (i.Id() in s.unpublished || KeyDelivered(s, i.Id()))
  }

  ghost predicate Sound(s: State, limits: Limits) {
    && NothingLost(s)
    && s.delivered <= s.observed
    && |s.processes| <= limits.processes && |s.identities| <= limits.observations
    && s.processes <= s.identities.Keys
    && Named(s.identities, s) && Named(s.unpublished, s)
  }

  lemma ObservedLosesNothing(s: State, i: Identity)
    requires NothingLost(s)
    ensures NothingLost(After(s, Observed(i)))
  {
    var t := After(s, Observed(i));
    forall o | o in t.observed ensures o.Id() in t.identities && (o.Id() in t.unpublished || KeyDelivered(t, o.Id())) {
      if o.Id() != i.Id() {
        assert KeyDelivered(s, o.Id()) ==> KeyDelivered(t, o.Id());
      }
    }
  }

  lemma ObservedKeepsSound(s: State, limits: Limits, i: Identity)
    requires Sound(s, limits) && Enabled(s, limits, Observed(i))
    ensures Sound(After(s, Observed(i)), limits)
  {
    var t := After(s, Observed(i));
    ObservedLosesNothing(s, i);
    NamedMore(s.identities, s, i);
    NamedMore(s.unpublished, s, i);
    OneMore(s.identities, i);
  }

  lemma OneMore(m: map<Key, Identity>, i: Identity)
    ensures m[i.Id() := i].Keys == m.Keys + {i.Id()} && |m[i.Id() := i]| <= |m| + 1
  {
    KeysNext(m, i.Id(), i);
    var all := m[i.Id() := i];
    assert |all| == |all.Keys| && |m| == |m.Keys|;
    if i.Id() in m {
      assert m.Keys + {i.Id()} == m.Keys;
    }
  }

  lemma NamedMore(m: map<Key, Identity>, s: State, i: Identity)
    requires Named(m, s)
    ensures Named(m[i.Id() := i], After(s, Observed(i)))
  {
  }

  lemma PublishingKeepsSound(s: State, limits: Limits, e: Event)
    requires Sound(s, limits) && Enabled(s, limits, e) && (e.Delivered? || e.Retired?)
    ensures Sound(After(s, e), limits)
  {
    var t := After(s, e);
    forall o | o in t.observed ensures o.Id() in t.identities && (o.Id() in t.unpublished || KeyDelivered(t, o.Id())) {
      if e.Retired? && o.Id() in Keys(e.batch) {
        var d :| d in e.batch && d.Id() == o.Id();
        assert d in t.delivered;
      } else if KeyDelivered(s, o.Id()) {
        var d :| d in s.delivered && d.Id() == o.Id();
        assert d in t.delivered;
      }
    }
  }

  lemma PruningKeepsSound(s: State, limits: Limits, gone: set<Key>)
    requires Sound(s, limits)
    ensures Sound(After(s, Pruned(gone)), limits)
  {
    var t := After(s, Pruned(gone));
    Fewer(t.processes, s.processes);
    forall o | o in t.observed ensures o.Id() in t.identities && (o.Id() in t.unpublished || KeyDelivered(t, o.Id())) {
      assert KeyDelivered(s, o.Id()) ==> KeyDelivered(t, o.Id());
    }
  }

  function AfterAll(s: State, events: seq<Event>): State {
    if events == [] then s else After(AfterAll(s, events[..|events| - 1]), events[|events| - 1])
  }

  ghost predicate Schedule(s: State, limits: Limits, events: seq<Event>) {
    forall k :: 0 <= k < |events| ==> Enabled(AfterAll(s, events[..k]), limits, events[k])
  }

  /** Under every interleaving of observations, prunings and publications: each process ever observed
      was delivered or is still to be published, only observed processes are delivered, and both
      limits hold. */
  lemma {:induction false} NoProcessIsLost(limits: Limits, events: seq<Event>)
    requires Schedule(INITIAL, limits, events)
    ensures Sound(AfterAll(INITIAL, events), limits)
    decreases |events|
  {
    if events != [] {
      var init, e := events[..|events| - 1], events[|events| - 1];
      forall k | 0 <= k < |init| ensures Enabled(AfterAll(INITIAL, init[..k]), limits, init[k]) {
        assert init[..k] == events[..k];
      }
      NoProcessIsLost(limits, init);
      var s := AfterAll(INITIAL, init);
      assert Enabled(s, limits, e);
      match e
      case Pruned(gone) => PruningKeepsSound(s, limits, gone);
      case Observed(i) => ObservedKeepsSound(s, limits, i);
      case _ => PublishingKeepsSound(s, limits, e);
    }
  }

  /** The latest observation of the process was delivered or is to be published. */
  ghost predicate Kept(s: State, k: Key) {
    k in s.identities ==> s.identities[k] in s.delivered || (k in s.unpublished && s.unpublished[k] == s.identities[k])
  }

  ghost predicate LatestKept(s: State) {
    forall k :: k in s.identities ==> Kept(s, k)
  }

  /** The observations that are still to be published are the latest. */
  ghost predicate UnpublishedIsLatest(s: State) {
    forall k :: k in s.unpublished ==> k in s.identities && s.unpublished[k] == s.identities[k]
  }

  /** The state after the first `t` events. */
  function At(events: seq<Event>, t: nat): State
    requires t <= |events|
  {
    AfterAll(INITIAL, events[..t])
  }

  lemma AtNext(events: seq<Event>, t: nat)
    requires t < |events|
    ensures At(events, t + 1) == After(At(events, t), events[t])
  {
    assert events[..t + 1][..t] == events[..t];
  }

  lemma {:induction false} UnpublishedStaysLatest(events: seq<Event>, t: nat)
    requires t <= |events|
    ensures UnpublishedIsLatest(At(events, t))
    decreases t
  {
    if t > 0 {
      UnpublishedStaysLatest(events, t - 1);
      AtNext(events, t - 1);
    }
  }

  /** The last observation of the process among the events from `from` on, before `until`. */
  function LastObserved(events: seq<Event>, from: nat, until: nat, k: Key): Option<Identity>
    requires from <= until <= |events|
    decreases until
  {
    if from == until then None
    else if events[until - 1].Observed? && events[until - 1].identity.Id() == k then Some(events[until - 1].identity)
    else LastObserved(events, from, until - 1, k)
  }

  /** What is known of a process is its last observation since, or what was known then. */
  lemma {:induction false} KnownSince(events: seq<Event>, from: nat, until: nat, k: Key)
    requires from <= until <= |events|
    ensures var last, earlier, now := LastObserved(events, from, until, k), At(events, from).identities, At(events, until).identities;
            if last.Some? then k in now && now[k] == last.value
            else (k in now <==> k in earlier) && (k in now ==> now[k] == earlier[k])
    decreases until
  {
    if from != until {
      KnownSince(events, from, until - 1, k);
      AtNext(events, until - 1);
    }
  }

  /** A batch of all that was unpublished when the first `taken` events had happened, retired by event
      `retired`. */
  ghost predicate Publication(events: seq<Event>, taken: nat, retired: nat) {
    && taken <= retired < |events| && events[retired].Retired?
    && Elements(events[retired].batch) == At(events, taken).unpublished.Values
  }

  /** Since the batch was taken the process was observed anew, and the last such observation is not
      delivered when the batch is retired. */
  ghost predicate ObservedAnew(events: seq<Event>, taken: nat, retired: nat, k: Key)
    requires taken <= retired < |events|
  {
    var last := LastObserved(events, taken, retired, k);
    last.Some? && last.value !in At(events, retired).delivered
  }

  /** Of a process in a batch, retiring the batch loses the latest observation exactly when the process
      was observed anew in the meantime, and that was not delivered: under every schedule, whatever else
      happens in between. */
  lemma LatestIsLostIffObservedAnew(limits: Limits, events: seq<Event>, taken: nat, retired: nat, k: Key)
    requires Schedule(INITIAL, limits, events) && Publication(events, taken, retired) && k in Keys(events[retired].batch)
    ensures !Kept(At(events, retired + 1), k) <==> ObservedAnew(events, taken, retired, k)
  {
    var batch := events[retired].batch;
    AtNext(events, retired);
    KnownSince(events, taken, retired, k);
    TakenIsLatest(limits, events, taken, retired, k);
    assert Enabled(At(events, retired), limits, events[retired]);
  }

  /** What a batch says of a process was the latest observation when the batch was taken, and is
      delivered when it is retired. */
  lemma TakenIsLatest(limits: Limits, events: seq<Event>, taken: nat, retired: nat, k: Key)
    requires Schedule(INITIAL, limits, events) && Publication(events, taken, retired) && k in Keys(events[retired].batch)
    ensures k in At(events, taken).identities && At(events, taken).identities[k] in At(events, retired).delivered
  {
    var s, batch := At(events, taken), events[retired].batch;
    var i :| i in batch && i.Id() == k;
    assert i in Elements(batch);
    UnpublishedStaysLatest(events, taken);
    PrefixSchedule(limits, events, taken);
    NoProcessIsLost(limits, events[..taken]);
    var n :| n in s.unpublished && s.unpublished[n] == i;
    assert n == k;
    assert Enabled(At(events, retired), limits, events[retired]);
  }

  lemma PrefixSchedule(limits: Limits, events: seq<Event>, t: nat)
    requires Schedule(INITIAL, limits, events) && t <= |events|
    ensures Schedule(INITIAL, limits, events[..t])
  {
    forall k | 0 <= k < t ensures Enabled(AfterAll(INITIAL, events[..t][..k]), limits, events[..t][k]) {
      assert events[..t][..k] == events[..k];
    }
  }

  /** Every retired batch is one that was taken before. */
  ghost predicate Publications(events: seq<Event>, taken: map<nat, nat>) {
    forall t :: 0 <= t < |events| && events[t].Retired? ==> t in taken && Publication(events, taken[t], t)
  }

  ghost predicate NeverObservedAnew(events: seq<Event>, taken: map<nat, nat>)
    requires Publications(events, taken)
  {
    forall t, k :: 0 <= t < |events| && events[t].Retired? && k in Keys(events[t].batch) ==> !ObservedAnew(events, taken[t], t, k)
  }

  /** So the latest observation of every process is kept at every moment exactly if no process is ever
      observed anew, undelivered, while a batch that names it is being delivered. */
  lemma LatestKeptIffNeverObservedAnew(limits: Limits, events: seq<Event>, taken: map<nat, nat>)
    requires Schedule(INITIAL, limits, events) && Publications(events, taken)
    ensures (forall t :: 0 <= t <= |events| ==> LatestKept(At(events, t))) <==> NeverObservedAnew(events, taken)
  {
    if forall t :: 0 <= t <= |events| ==> LatestKept(At(events, t)) {
      forall t, k | 0 <= t < |events| && events[t].Retired? && k in Keys(events[t].batch)
        ensures !ObservedAnew(events, taken[t], t, k)
      {
        assert LatestKept(At(events, t + 1)) && Publication(events, taken[t], t);
        LatestIsLostIffObservedAnew(limits, events, taken[t], t, k);
      }
    }
    if NeverObservedAnew(events, taken) {
      forall t | 0 <= t <= |events| ensures LatestKept(At(events, t)) {
        LatestStaysKept(limits, events, taken, t);
      }
    }
  }

  lemma {:induction false} LatestStaysKept(limits: Limits, events: seq<Event>, taken: map<nat, nat>, t: nat)
    requires Schedule(INITIAL, limits, events) && Publications(events, taken) && NeverObservedAnew(events, taken) && t <= |events|
    ensures LatestKept(At(events, t))
    decreases t
  {
    if t > 0 {
      LatestStaysKept(limits, events, taken, t - 1);
      if events[t - 1].Retired? {
        RetiringStaysKept(limits, events, taken, t - 1);
      } else {
        OtherStaysKept(events, t - 1);
      }
    }
  }

  lemma OtherStaysKept(events: seq<Event>, t: nat)
    requires t < |events| && !events[t].Retired? && LatestKept(At(events, t))
    ensures LatestKept(At(events, t + 1))
  {
    UnpublishedStaysLatest(events, t);
    AtNext(events, t);
    OtherEventsKeepLatest(At(events, t), events[t]);
  }

  lemma RetiringStaysKept(limits: Limits, events: seq<Event>, taken: map<nat, nat>, t: nat)
    requires Schedule(INITIAL, limits, events) && Publications(events, taken) && NeverObservedAnew(events, taken)
    requires t < |events| && events[t].Retired? && LatestKept(At(events, t))
    ensures LatestKept(At(events, t + 1))
  {
    AtNext(events, t);
    RetiringKeepsOthers(At(events, t), events[t].batch);
    forall k | k in Keys(events[t].batch) ensures Kept(At(events, t + 1), k) {
      assert Publication(events, taken[t], t) && !ObservedAnew(events, taken[t], t, k);
      LatestIsLostIffObservedAnew(limits, events, taken[t], t, k);
    }
  }

  lemma RetiringKeepsOthers(s: State, batch: seq<Identity>)
    requires LatestKept(s)
    ensures forall k :: k in s.identities && k !in Keys(batch) ==> Kept(After(s, Retired(batch)), k)
  {
    forall k | k in s.identities && k !in Keys(batch) ensures Kept(After(s, Retired(batch)), k) {
      assert Kept(s, k);
    }
  }

  /** Every event but retiring a batch keeps the latest observations. */
  lemma OtherEventsKeepLatest(s: State, e: Event)
    requires LatestKept(s) && UnpublishedIsLatest(s) && !e.Retired?
    ensures LatestKept(After(s, e))
  {
    forall k | k in After(s, e).identities ensures Kept(After(s, e), k) {
      assert k in s.identities ==> Kept(s, k);
    }
  }

  /** The state is the outcome of a schedule of events. */
  ghost predicate Reached(limits: Limits, events: seq<Event>, s: State) {
    Schedule(INITIAL, limits, events) && s == AfterAll(INITIAL, events)
  }

  lemma ReachedNext(limits: Limits, events: seq<Event>, s: State, e: Event)
    requires Reached(limits, events, s) && Enabled(s, limits, e)
    ensures Reached(limits, events + [e], After(s, e))
  {
    var all := events + [e];
    assert all[..|events|] == events;
    forall k | 0 <= k < |all| ensures Enabled(AfterAll(INITIAL, all[..k]), limits, all[k]) {
      if k < |events| {
        assert all[..k] == events[..k];
      }
    }
  }

  /** It does happen, wherever a process is to be published and the limits allow another observation: the
      process is taken for delivery, pruned as a zombie, observed again with another parent, and then
      retired with the batch. */
  lemma LatestCanBeLost(limits: Limits, events: seq<Event>, s: State, batch: seq<Identity>, i: Identity, again: Identity)
    requires Reached(limits, events, s) && Elements(batch) == s.unpublished.Values
    requires i in batch && again !in batch && i.Id() == again.Id() && again !in s.delivered
    requires |s.processes - {i.Id()}| < limits.processes && |s.identities| < limits.observations
    ensures var t := AfterAgain(s, batch, again);
            && Reached(limits, events + [Pruned({again.Id()})] + [Observed(again)] + [Delivered(batch)] + [Retired(batch)], t)
            && again in t.observed && !Kept(t, again.Id())
  {
    NoProcessIsLost(limits, events);
    AllObserved(s, batch);
    ReachedNext(limits, events, s, Pruned({again.Id()}));
    var s1 := After(s, Pruned({again.Id()}));
    ReachedNext(limits, events + [Pruned({again.Id()})], s1, Observed(again));
    assert again.Id() in Keys(batch);
    RetiringLoses(limits, events + [Pruned({again.Id()})] + [Observed(again)], After(s1, Observed(again)), batch, again);
  }

  /** Retiring a batch with an earlier observation loses the latest one. */
  lemma RetiringLoses(limits: Limits, events: seq<Event>, s: State, batch: seq<Identity>, again: Identity)
    requires Reached(limits, events, s) && forall i :: i in batch ==> i in s.observed
    requires again.Id() in Keys(batch) && again !in batch && again !in s.delivered
    requires again.Id() in s.identities && s.identities[again.Id()] == again
    ensures var t := After(After(s, Delivered(batch)), Retired(batch));
            Reached(limits, events + [Delivered(batch)] + [Retired(batch)], t) && !Kept(t, again.Id())
  {
    ReachedNext(limits, events, s, Delivered(batch));
    ReachedNext(limits, events + [Delivered(batch)], After(s, Delivered(batch)), Retired(batch));
  }

  /** The state after a process of the batch was pruned, observed again and retired with the batch. */
  function AfterAgain(s: State, batch: seq<Identity>, again: Identity): State {
    After(After(After(After(s, Pruned({again.Id()})), Observed(again)), Delivered(batch)), Retired(batch))
  }

  lemma AllObserved(s: State, batch: seq<Identity>)
    requires Named(s.unpublished, s) && Elements(batch) == s.unpublished.Values
    ensures forall i :: i in batch ==> i in s.observed
  {
    forall i | i in batch ensures i in s.observed {
      assert i in Elements(batch);
    }
  }

  /** The batch is all that was unpublished when these events had happened. */
  ghost predicate TakenAfter(events: seq<Event>, batch: seq<Identity>) {
    Elements(batch) == AfterAll(INITIAL, events).unpublished.Values
  }

  /** The last event retires what was unpublished when the first `taken` events had happened. */
  ghost predicate Published(events: seq<Event>, taken: nat) {
    events != [] && Publication(events, taken, |events| - 1)
  }

  lemma TakenBefore(before: seq<Event>, events: seq<Event>, batch: seq<Identity>)
    requires before < events && events[|events| - 1] == Retired(batch) && TakenAfter(before, batch)
    ensures Published(events, |before|)
  {
    assert events[..|before|] == before;
  }

  lemma KeysNext(m: map<Key, Identity>, k: Key, i: Identity)
    ensures m[k := i].Keys == m.Keys + {k}
  {
  }

  /** What is still to be published stays so while processes are added. */
  ghost predicate Grown(s: State, t: State) {
    s.observed <= t.observed && s.delivered == t.delivered && s.unpublished.Keys <= t.unpublished.Keys
  }

  lemma AddingGrows(s: State, i: Identity, gone: set<Key>)
    ensures Grown(s, s) && Grown(s, After(s, Pruned(gone))) && Grown(s, After(After(s, Pruned(gone)), Observed(i)))
  {
  }

  class ProcessOwner {
    const limits: Limits
    var processes: map<Key, Identity>
    var identities: map<Key, Identity>
    var unpublished: map<Key, Identity>
    var overLimit: bool
    ghost var observed: set<Identity>
    ghost var delivered: set<Identity>
    ghost var events: seq<Event>

    ghost function Abstract(): State
      reads this
    {
      State(processes.Keys, identities, unpublished, observed, delivered)
    }

    /** What is owned is the outcome of the events so far. */
    ghost predicate Valid()
      reads this
    {
      Reached(limits, events, Abstract()) && forall k :: k in processes ==> processes[k].Id() == k
    }

    constructor (limits: Limits)
      ensures Valid() && this.limits == limits && Abstract() == INITIAL && !overLimit
    {
      this.limits := limits;
      processes, identities, unpublished, overLimit := map[], map[], map[], false;
      observed, delivered, events := {}, {}, [];
    }

    twostate predicate Happened(e: Event)
      reads this
    {
      events == old(events) + [e] && Abstract() == After(old(Abstract()), e)
    }

    method Prune(gone: set<Key>)
      requires Valid()
      modifies this
      ensures Valid() && Happened(Pruned(gone)) && overLimit == old(overLimit)
      ensures processes == old(processes) - gone
    {
      ReachedNext(limits, events, Abstract(), Pruned(gone));
      ghost var before := Abstract();
      processes := processes - gone;
      events := events + [Pruned(gone)];
      assert processes.Keys == before.processes - gone;
    }

    method Own(i: Identity)
      requires Valid() && Enabled(Abstract(), limits, Observed(i))
      modifies this
      ensures Valid() && Happened(Observed(i)) && overLimit == old(overLimit)
    {
      ReachedNext(limits, events, Abstract(), Observed(i));
      KeysNext(processes, i.Id(), i);
      processes, identities, unpublished := processes[i.Id() := i], identities[i.Id() := i], unpublished[i.Id() := i];
      observed, events := observed + {i}, events + [Observed(i)];
    }

    /** A process that is not owned is owned from now on, unless a limit was reached. */
    method Add(i: Identity, gone: set<Key>) returns (r: Result<Identity, ()>)
      requires Valid()
      modifies this
      ensures Valid()
      ensures r.Err? <==> i.Id() !in old(processes)
                          && (|(old(processes) - gone).Keys| >= limits.processes || |old(identities)| >= limits.observations)
      ensures (overLimit <==> old(overLimit) || r.Err?) && old(events) <= events
      ensures Abstract() == if i.Id() in old(processes) then old(Abstract())
                            else if r.Err? then After(old(Abstract()), Pruned(gone))
                            else After(After(old(Abstract()), Pruned(gone)), Observed(i))
    {
      if i.Id() !in processes {
        Prune(gone);
        if |processes.Keys| >= limits.processes || |identities| >= limits.observations {
          overLimit := true;
          return Err(());
        }
        Own(i);
      }
      r := Ok(i);
    }

    /** The batch to publish, if publishing is due and there is any. */
    method BeginPublish(due: bool) returns (batch: seq<Identity>)
      requires Valid()
      ensures batch == [] <==> !due || unpublished == map[]
      ensures batch != [] ==> Elements(batch) == unpublished.Values && TakenAfter(events, batch)
      ensures forall i :: i in batch ==> i in observed
    {
      NoProcessIsLost(limits, events);
      batch := [];
      if due && unpublished != map[] {
        batch := Listed(unpublished);
        forall i | i in batch ensures i in observed {
          assert i in Elements(batch);
          assert Named(unpublished, Abstract());
        }
      }
    }

    /** The callback accepted the batch. */
    ghost method Accept(batch: seq<Identity>)
      requires Valid() && forall i :: i in batch ==> i in observed
      modifies this
      ensures Valid() && Happened(Delivered(batch)) && overLimit == old(overLimit)
    {
      ghost var before := Abstract();
      ReachedNext(limits, events, before, Delivered(batch));
      delivered, events := delivered + Elements(batch), events + [Delivered(batch)];
      assert Abstract() == After(before, Delivered(batch));
    }

    /** Once the callback returned, what the batch names is published. */
    method EndPublish(batch: seq<Identity>)
      requires Valid() && forall i :: i in batch ==> i in delivered
      modifies this
      ensures Valid() && Happened(Retired(batch)) && overLimit == old(overLimit)
    {
      ReachedNext(limits, events, Abstract(), Retired(batch));
      var rest := Without(unpublished, batch);
      unpublished, events := rest, events + [Retired(batch)];
    }

    /** Publishing: the batch is taken, the callback runs without the lock, while other processes may be
        observed, and if it returns the batch is retired. If it fails, all is still to be published. */
    method Publish(due: bool, accepts: bool, meanwhile: seq<Identity>, gone: set<Key>) returns (published: bool)
      requires Valid()
      modifies this
      ensures Valid()
      ensures published <==> due && old(unpublished) != map[] && accepts
      ensures published ==> Published(events, |old(events)|)
      ensures !published ==> Grown(old(Abstract()), Abstract())
    {
      published := false;
      var batch := BeginPublish(due);
      ghost var taken := events;
      if batch != [] {
        Meanwhile(meanwhile, gone);
        if accepts {
          Accept(batch);
          EndPublish(batch);
          TakenBefore(taken, events, batch);
          published := true;
        }
      }
    }

    /** What the other thread does while the callback runs. */
    method Meanwhile(observations: seq<Identity>, gone: set<Key>)
      requires Valid()
      modifies this
      ensures Valid() && old(events) <= events && Grown(old(Abstract()), Abstract())
    {
      for k := 0 to |observations|
        invariant Valid() && old(events) <= events && Grown(old(Abstract()), Abstract())
      {
        AddingGrows(Abstract(), observations[k], gone);
        var r := Add(observations[k], gone);
      }
    }

    /** A limit was reached although some process that can be read is not owned. */
    ghost predicate Full(w: World)
      reads this
    {
      && (|processes.Keys| >= limits.processes || |identities| >= limits.observations)
      && !(Everyone(w) - w.hidden <= processes.Keys)
    }

    /** What scanning does: it knows more processes, of those there are, and it fails exactly when a limit
        is reached. */
    twostate predicate Scanning(w: World, ok: bool)
      reads this
    {
      && old(identities.Keys) <= identities.Keys <= old(identities.Keys) + Everyone(w)
      && processes.Keys <= old(processes.Keys) + Everyone(w)
      && (overLimit <==> old(overLimit) || !ok)
      && (!ok ==> Full(w))
    }

    /** A child that cannot be read is not tracked. */
    method Track(child: Identity, w: World) returns (ok: bool)
      requires Valid() && child.Id() in Everyone(w)
      modifies this
      ensures Valid() && Scanning(w, ok)
      ensures ok && child.Id() !in w.hidden ==> child.Id() in identities
    {
      ok := true;
      if child.Id() !in w.hidden {
        NoProcessIsLost(limits, events);
        var r := Add(child, w.gone);
        ok := r.Ok?;
      }
    }

    method TrackAll(children: seq<Identity>, w: World) returns (ok: bool)
      requires Valid() && Keys(children) <= Everyone(w)
      modifies this
      ensures Valid() && Scanning(w, ok)
      ensures ok ==> Visible(children, w) <= identities.Keys
    {
      ok := true;
      for k := 0 to |children|
        invariant Valid() && Scanning(w, true)
        invariant Visible(children[..k], w) <= identities.Keys
      {
        assert children[k].Id() in Keys(children);
        ok := Track(children[k], w);
        if !ok {
          return;
        }
        VisibleNext(children, k, w);
      }
      assert children[..|children|] == children;
    }

    method Visit(id: Key, w: World, ghost start: set<Key>, ghost seen: set<Key>, ghost pending: set<Key>)
      returns (ok: bool, children: seq<Identity>)
      requires Valid() && Scanned(w, start, seen, pending + {id}, identities.Keys)
      modifies this
      ensures Valid() && Scanning(w, ok)
      ensures ok ==> Scanned(w, start, seen + {id}, pending + Keys(children), identities.Keys)
      ensures Keys(children) <= Everyone(w)
    {
      ok, children := true, [];
      if id in w.children {
        children := w.children[id];
        EveryoneHas(w, id);
        ok := TrackAll(children, w);
        if ok {
          ScannedNext(w, start, seen, pending, old(identities.Keys), id, identities.Keys);
        }
      }
    }

    /** One scan observes every process that descends from an owned one, however deep, if it can be read;
        it fails only when a limit is reached and some process is not owned. */
    method Scan(w: World) returns (ok: bool)
      requires Valid()
      modifies this
      ensures Valid() && Scanning(w, ok)
      ensures ok ==> DescendantsKnown(w, old(processes.Keys) - w.gone, identities.Keys)
    {
      Prune(w.gone);
      NoProcessIsLost(limits, events);
      var pending := Listed(processes);
      var seen: set<Key> := {};
      ghost var start, all := processes.Keys, processes.Keys + Everyone(w);
      ListedKeys(processes, pending);
      while pending != []
        invariant Valid() && Scanning(w, true) && start <= identities.Keys
        invariant Scanned(w, start, seen, Keys(pending), identities.Keys)
        invariant seen + Keys(pending) <= all
        decreases all - seen, |pending|
      {
        ok, pending, seen := ScanNext(w, pending, seen, start, all);
        if !ok {
          return;
        }
      }
      ok := true;
      AllScanned(w, start, seen, identities.Keys);
    }

    /** The last process pending: its children are tracked and pending, unless it was seen before. */
    method ScanNext(w: World, pending: seq<Identity>, seen: set<Key>, ghost start: set<Key>, ghost all: set<Key>)
      returns (ok: bool, left: seq<Identity>, seenNow: set<Key>)
      requires Valid() && pending != [] && Everyone(w) <= all
      requires Scanned(w, start, seen, Keys(pending), identities.Keys) && seen + Keys(pending) <= all
      modifies this
      ensures Valid() && Scanning(w, ok)
      ensures ok ==> Scanned(w, start, seenNow, Keys(left), identities.Keys) && seenNow + Keys(left) <= all
      ensures if pending[|pending| - 1].Id() in seen then seenNow == seen && |left| < |pending|
              else seenNow == seen + {pending[|pending| - 1].Id()}
    {
      var id := pending[|pending| - 1].Id();
      KeysLast(pending);
      ok, left, seenNow := true, pending[..|pending| - 1], seen;
      if id in seen {
        SeenAlready(w, start, seen, Keys(left), identities.Keys, id);
      } else {
        var children;
        ok, children := Visit(id, w, start, seen, Keys(left));
        KeysSplit(left, children);
        left, seenNow := left + children, seen + {id};
      }
    }
  }

  /** What the system says of processes at one moment: those no longer running or zombies, those that
      may not be read, and the children of those that run and show them. */
  datatype World = World(gone: set<Key>, hidden: set<Key>, children: map<Key, seq<Identity>>)

  predicate ChildOf(w: World, parent: Key, child: Identity) {
    parent in w.children && child in w.children[parent]
  }

  /** A path from a process to its descendant. */
  ghost predicate Descent(w: World, path: seq<Identity>) {
    forall k, l :: 0 <= k < |path| && l == k + 1 && l < |path| ==> ChildOf(w, path[k].Id(), path[l])
  }

  function Visible(children: seq<Identity>, w: World): set<Key> {
    Keys(children) - w.hidden
  }

  lemma VisibleNext(children: seq<Identity>, k: nat, w: World)
    requires k < |children|
    ensures Visible(children[..k + 1], w) == Visible(children[..k], w) + ({children[k].Id()} - w.hidden)
  {
    assert children[..k + 1] == children[..k] + [children[k]];
    KeysSplit(children[..k], [children[k]]);
  }

  function Everyone(w: World): set<Key> {
    set k, i | k in w.children && i in w.children[k] :: i.Id()
  }

  lemma EveryoneHas(w: World, k: Key)
    requires k in w.children
    ensures Keys(w.children[k]) <= Everyone(w)
  {
  }

  lemma KeysLast(pending: seq<Identity>)
    requires pending != []
    ensures Keys(pending) == Keys(pending[..|pending| - 1]) + {pending[|pending| - 1].Id()}
  {
    assert pending == pending[..|pending| - 1] + [pending[|pending| - 1]];
  }

  lemma KeysSplit(a: seq<Identity>, b: seq<Identity>)
    ensures Keys(a + b) == Keys(a) + Keys(b)
  {
  }

  /** Where a scan stands: the children of what was seen are seen or pending, and known if visible. */
  ghost predicate Scanned(w: World, start: set<Key>, seen: set<Key>, pending: set<Key>, known: set<Key>) {
    && start <= seen + pending
    && forall k :: k in seen && k in w.children ==>
                     Keys(w.children[k]) <= seen + pending && Visible(w.children[k], w) <= known
  }

  lemma ScannedNext(w: World, start: set<Key>, seen: set<Key>, pending: set<Key>, known: set<Key>, id: Key, after: set<Key>)
    requires Scanned(w, start, seen, pending + {id}, known) && known <= after
    requires id in w.children && Visible(w.children[id], w) <= after
    ensures Scanned(w, start, seen + {id}, pending + Keys(w.children[id]), after)
  {
  }

  lemma SeenAlready(w: World, start: set<Key>, seen: set<Key>, pending: set<Key>, known: set<Key>, id: Key)
    requires Scanned(w, start, seen, pending + {id}, known) && id in seen
    ensures Scanned(w, start, seen, pending, known)
  {
  }

  lemma {:induction false} AllSeen(w: World, start: set<Key>, seen: set<Key>, known: set<Key>, path: seq<Identity>)
    requires Scanned(w, start, seen, {}, known)
    requires Descent(w, path) && path != [] && path[0].Id() in start
    ensures path[|path| - 1].Id() in seen
    decreases |path|
  {
    if |path| > 1 {
      var init := path[..|path| - 1];
      AllSeen(w, start, seen, known, init);
      var parent, child := path[|path| - 2], path[|path| - 1];
      assert ChildOf(w, parent.Id(), child);
      assert child.Id() in Keys(w.children[parent.Id()]);
    }
  }

  /** Whatever descends from a process of the set is known, if it can be read. */
  ghost predicate DescendantsKnown(w: World, start: set<Key>, known: set<Key>) {
    forall path: seq<Identity> :: Descent(w, path) && path != [] && path[0].Id() in start ==>
                                    path[|path| - 1].Id() in w.hidden + known
  }

  lemma AllScanned(w: World, start: set<Key>, seen: set<Key>, known: set<Key>)
    requires Scanned(w, start, seen, {}, known) && start <= known
    ensures DescendantsKnown(w, start, known)
  {
    forall path: seq<Identity> | Descent(w, path) && path != [] && path[0].Id() in start
      ensures path[|path| - 1].Id() in w.hidden + known
    {
      if |path| > 1 {
        AllSeen(w, start, seen, known, path[..|path| - 1]);
        var parent, child := path[|path| - 2], path[|path| - 1];
        assert ChildOf(w, parent.Id(), child);
        assert child.Id() in Keys(w.children[parent.Id()]);
        assert Visible(w.children[parent.Id()], w) <= known;
      }
    }
  }

  lemma ListedKeys(m: map<Key, Identity>, values: seq<Identity>)
    requires Elements(values) == m.Values && forall k :: k in m ==> m[k].Id() == k
    ensures Keys(values) == m.Keys
  {
    forall k | k in m ensures k in Keys(values) {
      assert m[k] in Elements(values);
    }
    forall i | i in values ensures i.Id() in m {
      assert i in Elements(values);
    }
  }

  method Without(m: map<Key, Identity>, batch: seq<Identity>) returns (rest: map<Key, Identity>)
    ensures rest == m - Keys(batch)
  {
    rest := m;
    for k := 0 to |batch|
      invariant rest == m - Keys(batch[..k])
    {
      rest := rest - {batch[k].Id()};
      assert batch[..k + 1] == batch[..k] + [batch[k]];
      assert Keys(batch[..k + 1]) == Keys(batch[..k]) + {batch[k].Id()};
    }
    assert batch[..|batch|] == batch;
  }

  /** The values of a map, each at least once. */
  method Listed(m: map<Key, Identity>) returns (values: seq<Identity>)
    ensures Elements(values) == m.Values
    ensures m != map[] ==> values != []
  {
    values := [];
    var rest := m.Keys;
    while rest != {}
      invariant rest <= m.Keys
      invariant forall i :: i in values ==> i in m.Values
      invariant forall k :: k in m && k !in rest ==> m[k] in values
      decreases |rest|
    {
      var k :| k in rest;
      values, rest := values + [m[k]], rest - {k};
    }
    if m != map[] {
      var k :| k in m;
      assert m[k] in values;
    }
  }
}
