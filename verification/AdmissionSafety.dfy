/** Conservation, order of admission, and capacity over whole runs. */
module AdmissionSafety {
  import opened Requests
  import opened AdmissionProtocol
  import opened FiniteSets

  // ----- Conservation -----

  ghost predicate Disjoint4(a: set<string>, b: set<string>, c: set<string>, d: set<string>) {
    a !! b && a !! c && a !! d && b !! c && b !! d && c !! d
  }

  /** Every accepted id is waiting, processing, finished or cancelled, and only one of the four. */
  ghost predicate Conserved(s: System) {
    && DistinctTies(s.q.waiting)
    && DistinctIds(s.q.waiting)
    && s.accepted == Ids(s.q.waiting) + s.q.processing + s.finished + s.cancelled
    && Disjoint4(Ids(s.q.waiting), s.q.processing, s.finished, s.cancelled)
  }

  lemma IdsWithout(w: set<Entry>, gone: set<Entry>)
    requires DistinctIds(w) && gone <= w
    ensures Ids(w - gone) == Ids(w) - Ids(gone)
  {
    forall e, g | e in w - gone && g in gone ensures e.Id() != g.Id() {
    }
  }

  lemma IdsWith(w: set<Entry>, e: Entry)
    ensures Ids(w + {e}) == Ids(w) + {e.Id()}
  {
    assert forall i :: i in Ids(w) ==> i in Ids(w + {e});
  }

  lemma MatchingIds(w: set<Entry>, id: string, userName: string)
    requires DistinctIds(w)
    ensures var m := Matching(w, id, userName); m != {} ==> Ids(m) == {id} && exists e :: e in m && m == {e}
  {
    var m := Matching(w, id, userName);
    if m != {} {
      var e :| e in m;
      assert m == {e};
      assert Ids(m) == {id};
    }
  }

  lemma EnqueueConserves(s: System, ev: Event)
    requires ev.Enqueue? && Conserved(s) && Enabled(s, ev)
    ensures Conserved(Step(s, ev))
  {
    if |s.q.waiting| < s.q.maxSize {
      var e := MakeEntry(ev.context, ev.tiebreaker);
      IdsWith(s.q.waiting, e);
      var w := Step(s, ev).q.waiting;
      assert w == s.q.waiting + {e};
    } else {
      assert Step(s, ev) == s;
    }
  }

  lemma FrontIds(w: set<Entry>, f: Entry)
    requires DistinctIds(w) && f in w
    ensures f.Id() in Ids(w)
    ensures Ids(w - {f}) == Ids(w) - {f.Id()}
  {
    IdsWithout(w, {f});
    assert Ids({f}) == {f.Id()};
  }

  lemma CheckConserves(s: System, ev: Event)
    requires ev.Check? && Conserved(s)
    ensures Conserved(Step(s, ev))
  {
    if Admits(s.q, ev.id) {
      var f := Front(s.q.waiting).value;
      FrontIds(s.q.waiting, f);
      assert Step(s, ev).q.waiting == s.q.waiting - {f};
      assert Step(s, ev).q.processing == s.q.processing + {f.Id()};
    } else {
      assert Step(s, ev).q.waiting == s.q.waiting && Step(s, ev).q.processing == s.q.processing;
    }
  }

  lemma CancelConserves(s: System, ev: Event)
    requires ev.Cancel? && Conserved(s)
    ensures Conserved(Step(s, ev))
  {
    var m := Matching(s.q.waiting, ev.id, ev.userName);
    MatchingIds(s.q.waiting, ev.id, ev.userName);
    IdsWithout(s.q.waiting, m);
    if m != {} {
      assert ev.id in Ids(m) && Ids(m) <= Ids(s.q.waiting);
    }
  }

  lemma StepConserves(s: System, ev: Event)
    requires Conserved(s) && Enabled(s, ev)
    ensures Conserved(Step(s, ev))
  {
    match ev
    case Enqueue(_, _) => EnqueueConserves(s, ev);
    case Check(_) => CheckConserves(s, ev);
    case Cancel(_, _) => CancelConserves(s, ev);
    case _ =>
  }

  lemma {:induction false} RunConserves(s: System, es: seq<Event>)
    requires Conserved(s) && ValidRun(s, es)
    ensures Conserved(Run(s, es))
    decreases es
  {
    if es != [] {
      StepConserves(s, es[0]);
      RunConserves(Step(s, es[0]), es[1..]);
    }
  }

  lemma {:induction false} IdsCount(w: set<Entry>)
    requires DistinctIds(w)
    ensures |Ids(w)| == |w|
    decreases |w|
  {
    if w != {} {
      var e :| e in w;
      IdsWithout(w, {e});
      assert Ids({e}) == {e.Id()};
      assert e.Id() in Ids(w);
      IdsCount(w - {e});
    }
  }

  /** Conservation in every reachable state, as sets and as counts. */
  lemma Conservation(s: System, maxSize: int, maxConcurrency: int, es: seq<Event>)
    requires Reachable(s, maxSize, maxConcurrency, es)
    ensures s.accepted == Ids(s.q.waiting) + s.q.processing + s.finished + s.cancelled
    ensures Disjoint4(Ids(s.q.waiting), s.q.processing, s.finished, s.cancelled)
    ensures |s.accepted| == |s.q.waiting| + |s.q.processing| + |s.finished| + |s.cancelled|
  {
    RunConserves(InitialSystem(maxSize, maxConcurrency), es);
    IdsCount(s.q.waiting);
    var a := Ids(s.q.waiting) + s.q.processing;
    var b := a + s.finished;
    assert |a| == |Ids(s.q.waiting)| + |s.q.processing|;
    assert |b| == |a| + |s.finished|;
    assert |b + s.cancelled| == |b| + |s.cancelled|;
  }

  // ----- Order of admission -----

  /** An accepted id that has left the heap never comes back. */
  lemma {:induction false} GoneForGood(s: System, es: seq<Event>, id: string)
    requires ValidRun(s, es) && id in s.accepted && id !in Ids(s.q.waiting)
    ensures id !in Ids(Run(s, es).q.waiting)
    ensures forall a :: a in Admissions(s, es) ==> a.Id() != id
    decreases es
  {
    if es != [] {
      GoneForGood(Step(s, es[0]), es[1..], id);
    }
  }

  /** While a request stays in the heap, nothing with a larger key is admitted, whatever
      arrivals, cancellations, timeouts and limit changes intervene. */
  lemma {:induction false} NoOvertaking(s: System, es: seq<Event>, e: Entry)
    requires Conserved(s) && ValidRun(s, es)
    requires e in s.q.waiting && e in Run(s, es).q.waiting
    ensures forall a :: a in Admissions(s, es) ==> Less(a, e)
    decreases es
  {
    if es != [] {
      var t := Step(s, es[0]);
      StepConserves(s, es[0]);
      assert e.Id() in Ids(s.q.waiting);
      if e !in t.q.waiting {
        GoneForGood(t, es[1..], e.Id());
      }
      NoOvertaking(t, es[1..], e);
    }
  }

  /** So everything admitted between a request's arrival and its own admission has a smaller key. */
  lemma AdmittedInKeyOrder(s: System, es: seq<Event>, ev: Event, e: Entry)
    requires Conserved(s) && e in s.q.waiting
    requires ValidRun(s, es + [ev]) && AdmittedBy(Run(s, es).q, ev) == [e]
    ensures Admissions(s, es + [ev]) == Admissions(s, es) + [e]
    ensures forall a :: a in Admissions(s, es) ==> Less(a, e)
  {
    RunsCompose(s, es, [ev]);
    SingleStep(Run(s, es), ev);
    NoOvertaking(s, es, e);
  }

  predicate NoRepeats(r: seq<Entry>) {
    forall i, j :: 0 <= i < j < |r| ==> r[i].Id() != r[j].Id()
  }

  lemma Prepend(f: Entry, r: seq<Entry>)
    requires NoRepeats(r) && forall a :: a in r ==> a.Id() != f.Id()
    ensures NoRepeats([f] + r)
  {
  }

  lemma AdmissionLeavesTheHeap(s: System, ev: Event)
    requires Conserved(s) && ev.Check? && Admits(s.q, ev.id)
    ensures var t := Step(s, ev); ev.id in t.accepted && ev.id in t.q.processing && ev.id !in Ids(t.q.waiting)
  {
    CheckConserves(s, ev);
  }

  /** Entries carry the priority and timestamp of their request. */
  ghost predicate Faithful(e: Entry) {
    e == MakeEntry(e.context, e.tiebreaker)
  }

  lemma {:induction false} AdmissionsAreFaithful(s: System, es: seq<Event>)
    requires forall e :: e in s.q.waiting ==> Faithful(e)
    ensures forall e :: e in Run(s, es).q.waiting ==> Faithful(e)
    ensures forall a :: a in Admissions(s, es) ==> Faithful(a)
    decreases es
  {
    if es != [] {
      AdmissionsAreFaithful(Step(s, es[0]), es[1..]);
    }
  }

  /** No priority inversion: what is admitted while a request stays in the heap has a smaller priority
      number, or the same number and an earlier timestamp, or the same of both and a smaller tiebreaker. */
  lemma NoPriorityInversion(maxSize: int, maxConcurrency: int, before: seq<Event>, es: seq<Event>, e: Entry, a: Entry)
    requires var s := Run(InitialSystem(maxSize, maxConcurrency), before);
      && ValidRun(InitialSystem(maxSize, maxConcurrency), before) && ValidRun(s, es)
      && e in s.q.waiting && e in Run(s, es).q.waiting && a in Admissions(s, es)
    ensures a.context.priority < e.context.priority
      || (a.context.priority == e.context.priority && a.context.timestamp < e.context.timestamp)
      || (a.context.priority == e.context.priority && a.context.timestamp == e.context.timestamp
          && a.tiebreaker < e.tiebreaker)
  {
    var s0 := InitialSystem(maxSize, maxConcurrency);
    var s := Run(s0, before);
    RunConserves(s0, before);
    NoOvertaking(s, es, e);
    AdmissionsAreFaithful(s0, before);
    AdmissionsAreFaithful(s, es);
    assert Faithful(e) && Faithful(a);
  }

  lemma FirstAdmittedOnce(s: System, ev: Event, es: seq<Event>)
    requires Conserved(s) && Enabled(s, ev) && ValidRun(Step(s, ev), es)
    requires NoRepeats(Admissions(Step(s, ev), es))
    ensures NoRepeats(AdmittedBy(s.q, ev) + Admissions(Step(s, ev), es))
  {
    var head, rest := AdmittedBy(s.q, ev), Admissions(Step(s, ev), es);
    if head == [] {
      assert head + rest == rest;
    } else {
      StepConserves(s, ev);
      AdmissionLeavesTheHeap(s, ev);
      GoneForGood(Step(s, ev), es, ev.id);
      Prepend(Front(s.q.waiting).value, rest);
    }
  }

  /** No request is admitted twice. */
  lemma {:induction false} AdmittedOnce(s: System, es: seq<Event>)
    requires Conserved(s) && ValidRun(s, es)
    ensures NoRepeats(Admissions(s, es))
    decreases es
  {
    if es != [] {
      StepConserves(s, es[0]);
      AdmittedOnce(Step(s, es[0]), es[1..]);
      FirstAdmittedOnce(s, es[0], es[1..]);
    }
  }

  // ----- Capacity -----

  function Max(a: int, b: int): int {
    if a < b then b else a
  }

  lemma ConcurrencyStep(s: System, ev: Event)
    requires !ev.SetConcurrency?
    ensures Step(s, ev).q.maxConcurrency == s.q.maxConcurrency
    ensures |Step(s, ev).q.processing| <= Max(s.q.maxConcurrency, |s.q.processing|)
  {
    if ev.Done? {
      SubsetSize(Step(s, ev).q.processing, s.q.processing);
    }
  }

  lemma {:induction false} ConcurrencyBound(s: System, es: seq<Event>)
    requires forall ev :: ev in es ==> !ev.SetConcurrency?
    ensures Run(s, es).q.maxConcurrency == s.q.maxConcurrency
    ensures |Run(s, es).q.processing| <= Max(s.q.maxConcurrency, |s.q.processing|)
    decreases es
  {
    if es != [] {
      var t := Step(s, es[0]);
      ConcurrencyStep(s, es[0]);
      ConcurrencyBound(t, es[1..]);
    }
  }

  /** From the moment the limit is set, with some requests already running, until it is next changed the
      running count is at most the larger of the two; and once within the limit it stays there. */
  lemma ConcurrencyAfterChange(s: System, limit: int, es: seq<Event>, fs: seq<Event>)
    requires forall ev :: ev in es + fs ==> !ev.SetConcurrency?
    ensures var t := Run(Step(s, SetConcurrency(limit)), es);
      && |t.q.processing| <= Max(limit, |s.q.processing|)
      && (|t.q.processing| <= limit ==> |Run(t, fs).q.processing| <= limit)
  {
    assert forall ev :: ev in es ==> ev in es + fs;
    assert forall ev :: ev in fs ==> ev in es + fs;
    ConcurrencyBound(Step(s, SetConcurrency(limit)), es);
    ConcurrencyBound(Run(Step(s, SetConcurrency(limit)), es), fs);
  }

  lemma {:induction false} CapacityBound(s: System, es: seq<Event>)
    requires forall ev :: ev in es ==> !ev.SetMaxSize?
    ensures Run(s, es).q.maxSize == s.q.maxSize
    ensures |Run(s, es).q.waiting| <= Max(s.q.maxSize, |s.q.waiting|)
    decreases es
  {
    if es != [] {
      var t := Step(s, es[0]);
      if !es[0].Enqueue? {
        assert t.q.waiting <= s.q.waiting;
        SubsetSize(t.q.waiting, s.q.waiting);
      }
      CapacityBound(t, es[1..]);
    }
  }

  /** The same law for the waiting count and the queue length limit. */
  lemma CapacityAfterChange(s: System, size: int, es: seq<Event>, fs: seq<Event>)
    requires forall ev :: ev in es + fs ==> !ev.SetMaxSize?
    ensures var t := Run(Step(s, SetMaxSize(size)), es);
      && |t.q.waiting| <= Max(size, |s.q.waiting|)
      && (|t.q.waiting| <= size ==> |Run(t, fs).q.waiting| <= size)
  {
    assert forall ev :: ev in es ==> ev in es + fs;
    assert forall ev :: ev in fs ==> ev in es + fs;
    CapacityBound(Step(s, SetMaxSize(size)), es);
    CapacityBound(Run(Step(s, SetMaxSize(size)), es), fs);
  }

  lemma AcceptsBelowItsLimit(s: System, es: seq<Event>, context: RequestContext, tiebreaker: int)
    requires (forall ev :: ev in es ==> !ev.SetMaxSize?) && context.requestId !in Run(s, es).accepted
    ensures var t := Run(s, es);
      context.requestId in Step(t, Enqueue(context, tiebreaker)).accepted <==> |t.q.waiting| < s.q.maxSize
  {
    CapacityBound(s, es);
  }

  /** From the moment max_size is set, higher or lower, until it is next changed, a new request is accepted
      exactly when fewer than that many wait. */
  lemma AcceptedIffRoom(s: System, size: int, es: seq<Event>, context: RequestContext, tiebreaker: int)
    requires forall ev :: ev in es ==> !ev.SetMaxSize?
    requires context.requestId !in Run(Step(s, SetMaxSize(size)), es).accepted
    ensures var t := Run(Step(s, SetMaxSize(size)), es);
      context.requestId in Step(t, Enqueue(context, tiebreaker)).accepted <==> |t.q.waiting| < size
  {
    AcceptsBelowItsLimit(Step(s, SetMaxSize(size)), es, context, tiebreaker);
  }

  lemma AdmitsBelowItsLimit(s: System, es: seq<Event>, id: string)
    requires (forall ev :: ev in es ==> !ev.SetConcurrency?) && id !in Run(s, es).q.processing
    ensures var t := Run(s, es);
      id in Step(t, Check(id)).q.processing <==>
      |t.q.processing| < s.q.maxConcurrency && exists f :: IsFront(f, t.q.waiting) && f.Id() == id
  {
    ConcurrencyBound(s, es);
    var t := Run(s, es);
    if f :| IsFront(f, t.q.waiting) && f.Id() == id {
      FrontIsUnique(f, Front(t.q.waiting).value, t.q.waiting);
    }
  }

  /** From the moment the limit is set, higher or lower, until it is next changed, a turn gives a request
      that does not run a slot exactly when fewer than that many run and the request is the front one. */
  lemma AdmittedIffSlot(s: System, limit: int, es: seq<Event>, id: string)
    requires forall ev :: ev in es ==> !ev.SetConcurrency?
    requires id !in Run(Step(s, SetConcurrency(limit)), es).q.processing
    ensures var t := Run(Step(s, SetConcurrency(limit)), es);
      id in Step(t, Check(id)).q.processing <==>
      |t.q.processing| < limit && exists f :: IsFront(f, t.q.waiting) && f.Id() == id
  {
    AdmitsBelowItsLimit(Step(s, SetConcurrency(limit)), es, id);
  }

  /** Both laws hold of a new queue with the limits it was made with. */
  lemma NewQueueKeepsItsLimits(maxSize: int, maxConcurrency: int, es: seq<Event>, context: RequestContext,
                               tiebreaker: int, id: string)
    requires forall ev :: ev in es ==> !ev.SetMaxSize? && !ev.SetConcurrency?
    requires var t := Run(InitialSystem(maxSize, maxConcurrency), es);
      context.requestId !in t.accepted && id !in t.q.processing
    ensures var t := Run(InitialSystem(maxSize, maxConcurrency), es);
      && (context.requestId in Step(t, Enqueue(context, tiebreaker)).accepted <==> |t.q.waiting| < maxSize)
      && (id in Step(t, Check(id)).q.processing <==>
          |t.q.processing| < maxConcurrency && exists f :: IsFront(f, t.q.waiting) && f.Id() == id)
  {
    AcceptsBelowItsLimit(InitialSystem(maxSize, maxConcurrency), es, context, tiebreaker);
    AdmitsBelowItsLimit(InitialSystem(maxSize, maxConcurrency), es, id);
  }

  // ----- Timeouts -----

  /** Equal except for who is asleep. */
  predicate SameButSleepers(a: System, b: System) {
    a == b.(q := b.q.(sleeping := a.q.sleeping, woken := a.q.woken))
  }

  lemma SleepersDoNotMatterNow(a: System, b: System, ev: Event)
    requires SameButSleepers(a, b)
    ensures SameButSleepers(Step(a, ev), Step(b, ev))
    ensures AdmittedBy(a.q, ev) == AdmittedBy(b.q, ev)
  {
    assert a.q.waiting == b.q.waiting && a.q.processing == b.q.processing;
  }

  /** Who is asleep never influences what the heap, the running set or the ledger become. */
  lemma {:induction false} SleepersDoNotMatter(a: System, b: System, es: seq<Event>)
    requires SameButSleepers(a, b)
    ensures SameButSleepers(Run(a, es), Run(b, es))
    ensures Admissions(a, es) == Admissions(b, es)
    decreases es
  {
    if es != [] {
      SleepersDoNotMatterNow(a, b, es[0]);
      SleepersDoNotMatter(Step(a, es[0]), Step(b, es[0]), es[1..]);
    }
  }

  /** A timeout removes nothing: every later run goes as if it had not happened, and the
      same request can still be admitted by a later wait. */
  lemma TimeoutKeepsPlace(s: System, id: string, es: seq<Event>)
    ensures SameButSleepers(Run(Step(s, Timeout(id)), es), Run(s, es))
    ensures Admissions(Step(s, Timeout(id)), es) == Admissions(s, es)
    ensures var t := Step(s, Timeout(id));
      CallerObeys(t.q, Check(id)) && AdmittedBy(t.q, Check(id)) == AdmittedBy(s.q, Check(id))
  {
    SleepersDoNotMatter(Step(s, Timeout(id)), s, es);
  }
}
