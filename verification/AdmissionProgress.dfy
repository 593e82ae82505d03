/** Lost wake-ups, deadlock freedom, and draining. */
module AdmissionProgress {
  import opened Requests
  import opened AdmissionProtocol
  import opened AdmissionSafety

  // ----- Deadlock freedom -----

  ghost predicate FrontAsleep(q: QueueState) {
    Front(q.waiting).Some? && Front(q.waiting).value.Id() in q.sleeping
  }

  ghost predicate Deadlocked(q: QueueState) {
    q.maxConcurrency >= 1 && q.processing == {} && FrontAsleep(q)
  }

  /** A slot is free, the front request could take it, and its task is asleep. */
  ghost predicate Stalled(q: QueueState) {
    SlotFree(q) && FrontAsleep(q)
  }

  lemma {:induction false} NeverDeadlocked(s: System, es: seq<Event>)
    requires !Deadlocked(s.q)
    ensures !Deadlocked(Run(s, es).q)
    decreases es
  {
    if es != [] {
      NeverDeadlocked(Step(s, es[0]), es[1..]);
    }
  }

  /** No reachable state has nothing processing while the front request's waiter is asleep. */
  lemma DeadlockFreedom(s: System, maxSize: int, maxConcurrency: int, es: seq<Event>)
    requires Reachable(s, maxSize, maxConcurrency, es) && s.q.maxConcurrency >= 1 && s.q.processing == {}
    ensures !FrontAsleep(s.q)
    ensures s.q.waiting != {} ==>
              exists e :: IsFront(e, s.q.waiting) && Enabled(s, Check(e.Id())) && Admits(s.q, e.Id())
  {
    ReachableFacts(s, maxSize, maxConcurrency, es);
    if s.q.waiting != {} {
      var e := FrontExists(s.q.waiting);
      FrontIsUnique(e, Front(s.q.waiting).value, s.q.waiting);
      assert Enabled(s, Check(e.Id())) && Admits(s.q, e.Id());
    }
  }

  /** Exactly one kind of step creates a stall: an admission, which does not notify, that leaves
      a slot free when the waiter of the next front request is already asleep. */
  lemma StallsExactlyAfterSilentAdmission(s: System, ev: Event)
    requires !Stalled(s.q)
    ensures Stalled(Step(s, ev).q) <==>
      && ev.Check? && Admits(s.q, ev.id)
      && |s.q.processing + {ev.id}| < s.q.maxConcurrency
      && var rest := Front(s.q.waiting - {Front(s.q.waiting).value});
         rest.Some? && rest.value.Id() in s.q.sleeping
  {
  }

  /** With a limit of at most one no reachable state is stalled, whatever the limit was before. */
  lemma NoStallWithOneSlot(s: System, maxSize: int, maxConcurrency: int, es: seq<Event>)
    requires Reachable(s, maxSize, maxConcurrency, es) && s.q.maxConcurrency <= 1
    ensures !Stalled(s.q)
  {
    NeverDeadlocked(InitialSystem(maxSize, maxConcurrency), es);
  }

  ghost predicate NoLimitChange(es: seq<Event>) {
    forall ev :: ev in es ==> !ev.SetConcurrency?
  }

  ghost predicate SomeRunStalls(maxConcurrency: int) {
    exists maxSize: int, es: seq<Event> ::
      ValidRun(InitialSystem(maxSize, maxConcurrency), es) && NoLimitChange(es) &&
      Stalled(Run(InitialSystem(maxSize, maxConcurrency), es).q)
  }

  function Sample(id: string, priority: int): RequestContext {
    RequestContext(id, "anonymous", priority, 0.0, false)
  }

  const FIRST := Sample("a", 1)
  const SECOND := Sample("b", 2)

  lemma TwoArrivals(maxConcurrency: int)
    ensures var s := InitialSystem(2, maxConcurrency);
      && ValidRun(s, [Enqueue(FIRST, 1), Enqueue(SECOND, 2)])
      && Run(s, [Enqueue(FIRST, 1), Enqueue(SECOND, 2)]).q
         == QueueState({MakeEntry(FIRST, 1), MakeEntry(SECOND, 2)}, {}, 2, maxConcurrency, {}, {})
  {
    var s := InitialSystem(2, maxConcurrency);
    var t := Step(s, Enqueue(FIRST, 1));
    assert "a"[0] != "b"[0];
    assert t.q.waiting == {MakeEntry(FIRST, 1)};
    assert [Enqueue(FIRST, 1), Enqueue(SECOND, 2)][1..] == [Enqueue(SECOND, 2)];
    var u := Step(t, Enqueue(SECOND, 2));
    assert u.q.waiting == {MakeEntry(FIRST, 1), MakeEntry(SECOND, 2)};
    assert u.q.sleeping == {} && u.q.woken == {} && u.q.processing == {};
    assert Run(t, [Enqueue(SECOND, 2)]) == u;
  }

  lemma SecondSleepsThenFirstIsAdmitted(s: System, maxConcurrency: int)
    requires maxConcurrency >= 2
    requires s.q == QueueState({MakeEntry(FIRST, 1), MakeEntry(SECOND, 2)}, {}, 2, maxConcurrency, {}, {})
    ensures ValidRun(s, [Check("b"), Check("a")]) && Stalled(Run(s, [Check("b"), Check("a")]).q)
  {
    var first, second := MakeEntry(FIRST, 1), MakeEntry(SECOND, 2);
    assert "a"[0] != "b"[0];
    assert IsFront(first, s.q.waiting);
    FrontIsUnique(first, Front(s.q.waiting).value, s.q.waiting);
    var t := Step(s, Check("b"));
    assert t.q == s.q.(sleeping := {"b"});
    var u := Step(t, Check("a"));
    assert u.q.waiting == {second} && u.q.processing == {"a"};
    assert IsFront(second, u.q.waiting);
    FrontIsUnique(second, Front(u.q.waiting).value, u.q.waiting);
    assert [Check("b"), Check("a")][1..] == [Check("a")];
  }

  /** Two requests arrive; the second looks and goes to sleep; then the first is admitted. */
  lemma StallingRun(maxConcurrency: int) returns (es: seq<Event>)
    requires maxConcurrency >= 2
    ensures ValidRun(InitialSystem(2, maxConcurrency), es) && NoLimitChange(es)
    ensures Stalled(Run(InitialSystem(2, maxConcurrency), es).q)
  {
    var s := InitialSystem(2, maxConcurrency);
    var arrive := [Enqueue(FIRST, 1), Enqueue(SECOND, 2)];
    TwoArrivals(maxConcurrency);
    SecondSleepsThenFirstIsAdmitted(Run(s, arrive), maxConcurrency);
    RunsCompose(s, arrive, [Check("b"), Check("a")]);
    es := arrive + [Check("b"), Check("a")];
    forall ev | ev in es ensures !ev.SetConcurrency? {
      assert ev in arrive || ev in [Check("b"), Check("a")];
    }
  }

  /** The strong form, that a front waiter never sleeps while a slot is free, holds of every run
      under a fixed limit exactly when that limit is at most one. */
  lemma StallFreeIffOneSlot(maxConcurrency: int)
    ensures !SomeRunStalls(maxConcurrency) <==> maxConcurrency <= 1
  {
    if maxConcurrency >= 2 {
      var es := StallingRun(maxConcurrency);
    } else {
      forall maxSize: int, es: seq<Event> |
        ValidRun(InitialSystem(maxSize, maxConcurrency), es) && NoLimitChange(es)
        ensures !Stalled(Run(InitialSystem(maxSize, maxConcurrency), es).q)
      {
        ConcurrencyBound(InitialSystem(maxSize, maxConcurrency), es);
        NoStallWithOneSlot(Run(InitialSystem(maxSize, maxConcurrency), es), maxSize, maxConcurrency, es);
      }
    }
  }

  // ----- Draining -----

  /** An admission, or the release of a slot that is held. */
  ghost predicate Drains(s: System, ev: Event) {
    Enabled(s, ev) && ((ev.Check? && Admits(s.q, ev.id)) || (ev.Done? && ev.id in s.q.processing))
  }

  ghost predicate DrainRun(s: System, es: seq<Event>)
    decreases es
  {
    es == [] || (Drains(s, es[0]) && DrainRun(Step(s, es[0]), es[1..]))
  }

  /** An admission and a release are still due for a waiting request, a release for a running one. */
  function Work(q: QueueState): nat {
    2 * |q.waiting| + |q.processing|
  }

  lemma DrainStepWorks(s: System, ev: Event)
    requires Conserved(s) && Drains(s, ev)
    ensures Conserved(Step(s, ev)) && Work(Step(s, ev).q) == Work(s.q) - 1
    ensures Step(s, ev).q.maxConcurrency == s.q.maxConcurrency
  {
    StepConserves(s, ev);
    var t := Step(s, ev);
    if ev.Check? {
      var f := Front(s.q.waiting).value;
      assert f.Id() in Ids(s.q.waiting);
      assert t.q.waiting == s.q.waiting - {f} && t.q.processing == s.q.processing + {ev.id};
    } else {
      assert t.q.waiting == s.q.waiting && t.q.processing == s.q.processing - {ev.id};
    }
  }

  /** Draining never gets stuck before everything is done. */
  lemma DrainNeverStuck(s: System)
    requires Conserved(s) && !Deadlocked(s.q) && s.q.maxConcurrency >= 1 && Work(s.q) > 0
    ensures exists ev :: Drains(s, ev)
  {
    if s.q.processing != {} {
      var id :| id in s.q.processing;
      assert Drains(s, Done(id));
    } else {
      assert s.q.waiting != {};
      var e := FrontExists(s.q.waiting);
      FrontIsUnique(e, Front(s.q.waiting).value, s.q.waiting);
      assert Drains(s, Check(e.Id()));
    }
  }

  ghost predicate StrictlySorted(r: seq<Entry>) {
    forall i, j :: 0 <= i < j < |r| ==> Less(r[i], r[j])
  }

  lemma SmallestFirst(f: Entry, w: set<Entry>, rest: seq<Entry>, left: set<Entry>)
    requires IsFront(f, w) && StrictlySorted(rest)
    requires multiset(w - {f}) == multiset(left) + multiset(rest)
    ensures StrictlySorted([f] + rest)
    ensures multiset(w) == multiset(left) + multiset([f] + rest)
    ensures forall e :: e in left ==> Less(f, e)
  {
    assert multiset(w) == multiset(w - {f}) + multiset{f};
    forall e | e in rest || e in left ensures Less(f, e) {
      assert e in multiset(rest) || e in multiset(left);
      assert e in multiset(w - {f});
    }
  }

  lemma QuietStep(s: System, ev: Event)
    requires !ev.Enqueue? && !ev.Cancel?
    ensures AdmittedBy(s.q, ev) == [] ==> Step(s, ev).q.waiting == s.q.waiting
    ensures AdmittedBy(s.q, ev) != [] ==>
      && Front(s.q.waiting).Some? && AdmittedBy(s.q, ev) == [Front(s.q.waiting).value]
      && Step(s, ev).q.waiting == s.q.waiting - {Front(s.q.waiting).value}
  {
  }

  /** Without arrivals and cancellations, under any schedule, the admissions are the smallest
      waiting entries in key order. */
  lemma {:induction false} AdmissionsAreSorted(s: System, es: seq<Event>)
    requires forall ev :: ev in es ==> !ev.Enqueue? && !ev.Cancel?
    ensures StrictlySorted(Admissions(s, es))
    ensures Run(s, es).q.waiting <= s.q.waiting
    ensures multiset(s.q.waiting) == multiset(Run(s, es).q.waiting) + multiset(Admissions(s, es))
    ensures forall a, w :: a in Admissions(s, es) && w in Run(s, es).q.waiting ==> Less(a, w)
    decreases es
  {
    if es != [] {
      var t := Step(s, es[0]);
      AdmissionsAreSorted(t, es[1..]);
      QuietStep(s, es[0]);
      var rest := Admissions(t, es[1..]);
      if AdmittedBy(s.q, es[0]) == [] {
        assert [] + rest == rest;
      } else {
        SmallestFirst(Front(s.q.waiting).value, s.q.waiting, rest, Run(t, es[1..]).q.waiting);
      }
    }
  }

  lemma {:induction false} DrainRunFacts(s: System, es: seq<Event>)
    requires Conserved(s) && !Deadlocked(s.q) && DrainRun(s, es)
    ensures Conserved(Run(s, es)) && !Deadlocked(Run(s, es).q)
    ensures Run(s, es).q.maxConcurrency == s.q.maxConcurrency
    ensures Work(Run(s, es).q) + |es| == Work(s.q)
    ensures forall ev :: ev in es ==> !ev.Enqueue? && !ev.Cancel?
    decreases es
  {
    if es != [] {
      DrainStepWorks(s, es[0]);
      NeverDeadlocked(s, [es[0]]);
      SingleStep(s, es[0]);
      DrainRunFacts(Step(s, es[0]), es[1..]);
    }
  }

  lemma ReachableFacts(s: System, maxSize: int, maxConcurrency: int, es: seq<Event>)
    requires Reachable(s, maxSize, maxConcurrency, es)
    ensures Conserved(s) && !Deadlocked(s.q)
  {
    RunConserves(InitialSystem(maxSize, maxConcurrency), es);
    NeverDeadlocked(InitialSystem(maxSize, maxConcurrency), es);
  }

  lemma NoWorkNoDrain(s: System)
    requires Work(s.q) == 0
    ensures s.q.waiting == {} && s.q.processing == {}
    ensures forall ev :: !Drains(s, ev)
  {
  }

  /** Repeated admission and release terminates: a drain run has at most Work steps, one that cannot
      be extended has emptied the queue, and it admitted the sorted permutation of the heap. */
  lemma Draining(s: System, maxSize: int, maxConcurrency: int, before: seq<Event>, es: seq<Event>)
    requires Reachable(s, maxSize, maxConcurrency, before) && s.q.maxConcurrency >= 1
    requires DrainRun(s, es)
    ensures |es| <= Work(s.q)
    ensures (forall ev :: !Drains(Run(s, es), ev)) <==> |es| == Work(s.q)
    ensures |es| == Work(s.q) ==>
      && Run(s, es).q.waiting == {} && Run(s, es).q.processing == {}
      && StrictlySorted(Admissions(s, es)) && multiset(Admissions(s, es)) == multiset(s.q.waiting)
  {
    ReachableFacts(s, maxSize, maxConcurrency, before);
    DrainRunFacts(s, es);
    var t := Run(s, es);
    if Work(t.q) > 0 {
      DrainNeverStuck(t);
    } else {
      NoWorkNoDrain(t);
      AdmissionsAreSorted(s, es);
    }
  }
}
