/** The admission queue as a protocol: one event per lock-held section, on sets instead of a heap. */
module AdmissionProtocol {
  import opened Requests
  import opened Wrappers

  /** waiting: entries of the heap. sleeping: ids whose task is suspended on the condition.
      woken: ids whose task was notified and has not run its next check yet. */
  datatype QueueState = QueueState(
    waiting: set<Entry>,
    processing: set<string>,
    maxSize: int,
    maxConcurrency: int,
    sleeping: set<string>,
    woken: set<string>)

  datatype Event =
    | Enqueue(context: RequestContext, tiebreaker: int)
    | Check(id: string)     // one turn of the loop in wait_for_turn: admit, or go to sleep
    | Timeout(id: string)   // the wait is abandoned, asleep or just notified
    | Done(id: string)
    | Cancel(id: string, userName: string)
    | SetMaxSize(size: int)
    | SetConcurrency(limit: int)

  function InitialQueue(maxSize: int, maxConcurrency: int): QueueState {
    QueueState({}, {}, maxSize, maxConcurrency, {}, {})
  }

  function Ids(w: set<Entry>): set<string> {
    set e | e in w :: e.Id()
  }

  function Matching(w: set<Entry>, id: string, userName: string): set<Entry> {
    set e | e in w && e.Id() == id && e.context.userName == userName
  }

  ghost function Front(w: set<Entry>): (f: Option<Entry>)
    ensures f.Some? ==> IsFront(f.value, w)
    ensures f.None? ==> forall e :: !IsFront(e, w)
  {
    if exists e :: IsFront(e, w) then
      var e :| IsFront(e, w);
      Some(e)
    else
      None
  }

  ghost predicate SlotFree(q: QueueState) {
    |q.processing| < q.maxConcurrency
  }

  /** The guard under which a check admits id. */
  ghost predicate Admits(q: QueueState, id: string) {
    SlotFree(q) && Front(q.waiting).Some? && Front(q.waiting).value.Id() == id
  }

  function Notified(q: QueueState): QueueState {
    q.(sleeping := {}, woken := q.woken + q.sleeping)
  }

  ghost function Next(q: QueueState, ev: Event): QueueState {
    match ev
    case Enqueue(context, tiebreaker) =>
      if |q.waiting| >= q.maxSize then q
      else Notified(q.(waiting := q.waiting + {MakeEntry(context, tiebreaker)}))
    case Check(id) =>
      if Admits(q, id) then
        q.(waiting := q.waiting - {Front(q.waiting).value}, processing := q.processing + {id}, woken := q.woken - {id})
      else
        q.(sleeping := q.sleeping + {id}, woken := q.woken - {id})
    case Timeout(id) =>
      q.(sleeping := q.sleeping - {id}, woken := q.woken - {id})
    case Done(id) =>
      Notified(q.(processing := q.processing - {id}))
    case Cancel(id, userName) =>
      if Matching(q.waiting, id, userName) == {} then q
      else Notified(q.(waiting := q.waiting - Matching(q.waiting, id, userName)))
    case SetMaxSize(size) =>
      q.(maxSize := size)
    case SetConcurrency(limit) =>
      Notified(q.(maxConcurrency := limit))
  }

  /** What the callers of the queue guarantee: a new request brings an id and a tiebreaker that no
      waiting entry has, each id has one waiter, and only a waiter can time out. */
  ghost predicate CallerObeys(q: QueueState, ev: Event) {
    match ev
    case Enqueue(context, tiebreaker) =>
      forall e :: e in q.waiting ==> e.Id() != context.requestId && e.tiebreaker != tiebreaker
    case Check(id) => id !in q.sleeping
    case Timeout(id) => id in q.sleeping + q.woken
    case _ => true
  }

  /** A queue together with what has become of the requests it accepted. */
  datatype System = System(q: QueueState, accepted: set<string>, finished: set<string>, cancelled: set<string>)

  function InitialSystem(maxSize: int, maxConcurrency: int): System {
    System(InitialQueue(maxSize, maxConcurrency), {}, {}, {})
  }

  /** Request ids are never reused: uuid4 hex strings. */
  ghost predicate Enabled(s: System, ev: Event) {
    CallerObeys(s.q, ev) && (ev.Enqueue? ==> ev.context.requestId !in s.accepted)
  }

  ghost function Step(s: System, ev: Event): System {
    System(
      Next(s.q, ev),
      if ev.Enqueue? && |s.q.waiting| < s.q.maxSize then s.accepted + {ev.context.requestId} else s.accepted,
      if ev.Done? && ev.id in s.q.processing then s.finished + {ev.id} else s.finished,
      if ev.Cancel? && Matching(s.q.waiting, ev.id, ev.userName) != {} then s.cancelled + {ev.id} else s.cancelled)
  }

  ghost predicate ValidRun(s: System, es: seq<Event>)
    decreases es
  {
    es == [] || (Enabled(s, es[0]) && ValidRun(Step(s, es[0]), es[1..]))
  }

  ghost function Run(s: System, es: seq<Event>): System
    decreases es
  {
    if es == [] then s else Run(Step(s, es[0]), es[1..])
  }

  /** The entry an event admits, if any. */
  ghost function AdmittedBy(q: QueueState, ev: Event): seq<Entry> {
    if ev.Check? && Admits(q, ev.id) then [Front(q.waiting).value] else []
  }

  /** All entries a run admits, in order. */
  ghost function Admissions(s: System, es: seq<Event>): seq<Entry>
    decreases es
  {
    if es == [] then [] else AdmittedBy(s.q, es[0]) + Admissions(Step(s, es[0]), es[1..])
  }

  ghost predicate Reachable(s: System, maxSize: int, maxConcurrency: int, es: seq<Event>) {
    ValidRun(InitialSystem(maxSize, maxConcurrency), es) && s == Run(InitialSystem(maxSize, maxConcurrency), es)
  }

  lemma Unfold(s: System, es: seq<Event>, fs: seq<Event>)
    requires es != []
    ensures Run(s, es + fs) == Run(Step(s, es[0]), es[1..] + fs)
    ensures ValidRun(s, es + fs) <==> Enabled(s, es[0]) && ValidRun(Step(s, es[0]), es[1..] + fs)
    ensures Admissions(s, es + fs) == AdmittedBy(s.q, es[0]) + Admissions(Step(s, es[0]), es[1..] + fs)
  {
    assert (es + fs)[1..] == es[1..] + fs && (es + fs)[0] == es[0];
  }

  lemma {:induction false} RunsCompose(s: System, es: seq<Event>, fs: seq<Event>)
    ensures Run(s, es + fs) == Run(Run(s, es), fs)
    ensures ValidRun(s, es + fs) <==> ValidRun(s, es) && ValidRun(Run(s, es), fs)
    ensures Admissions(s, es + fs) == Admissions(s, es) + Admissions(Run(s, es), fs)
    decreases es
  {
    if es == [] {
      assert [] + fs == fs;
      assert [] + Admissions(s, fs) == Admissions(s, fs);
    } else {
      var t, first := Step(s, es[0]), AdmittedBy(s.q, es[0]);
      Unfold(s, es, fs);
      RunsCompose(t, es[1..], fs);
      var rest, more := Admissions(t, es[1..]), Admissions(Run(s, es), fs);
      assert first + (rest + more) == (first + rest) + more;
    }
  }

  lemma SingleStep(s: System, ev: Event)
    ensures Run(s, [ev]) == Step(s, ev)
    ensures ValidRun(s, [ev]) <==> Enabled(s, ev)
    ensures Admissions(s, [ev]) == AdmittedBy(s.q, ev)
  {
    assert [ev][1..] == [];
    assert Admissions(Step(s, ev), []) == [];
    assert AdmittedBy(s.q, ev) + [] == AdmittedBy(s.q, ev);
  }

  // ----- One call of wait_for_turn -----

  /** What happens to a waiter between going to sleep and its next turn: what other tasks do to the
      queue, and whether the wait then times out. */
  datatype Pause = Pause(others: seq<Event>, timesOut: bool)

  datatype Outcome = Admitted | Expired | StillAsleep

  ghost function NextAll(q: QueueState, es: seq<Event>): QueueState
    decreases es
  {
    if es == [] then q else NextAll(Next(q, es[0]), es[1..])
  }

  ghost predicate AllObey(q: QueueState, es: seq<Event>)
    decreases es
  {
    es == [] || (CallerObeys(q, es[0]) && AllObey(Next(q, es[0]), es[1..]))
  }

  /** The queue when a waiter has looked, gone to sleep, and others have acted. */
  ghost function AfterPause(q: QueueState, id: string, p: Pause): QueueState {
    NextAll(Next(q, Check(id)), p.others)
  }

  ghost function AfterWait(q: QueueState, id: string, pauses: seq<Pause>): QueueState
    decreases pauses
  {
    if Admits(q, id) || pauses == [] then Next(q, Check(id))
    else if pauses[0].timesOut then Next(AfterPause(q, id, pauses[0]), Timeout(id))
    else AfterWait(AfterPause(q, id, pauses[0]), id, pauses[1..])
  }

  ghost function WaitOutcome(q: QueueState, id: string, pauses: seq<Pause>): Outcome
    decreases pauses
  {
    if Admits(q, id) then Admitted
    else if pauses == [] then StillAsleep
    else if pauses[0].timesOut then Expired
    else WaitOutcome(AfterPause(q, id, pauses[0]), id, pauses[1..])
  }

  /** Others obey the queue's rules and leave this waiter's turn and timeout to it, and it runs again
      only after it was notified. */
  ghost predicate PausesObey(q: QueueState, id: string, pauses: seq<Pause>)
    decreases pauses
  {
    && CallerObeys(q, Check(id))
    && (Admits(q, id) || pauses == [] ||
        (&& AllObey(Next(q, Check(id)), pauses[0].others)
         && (forall ev :: ev in pauses[0].others ==> ev != Check(id) && ev != Timeout(id))
         && if pauses[0].timesOut then CallerObeys(AfterPause(q, id, pauses[0]), Timeout(id))
            else PausesObey(AfterPause(q, id, pauses[0]), id, pauses[1..])))
  }

  lemma {:induction false} OthersDoNotAdmit(q: QueueState, es: seq<Event>, id: string)
    requires id !in q.processing && forall ev :: ev in es ==> ev != Check(id)
    ensures id !in NextAll(q, es).processing
    decreases es
  {
    if es != [] {
      assert es[0] in es && forall ev :: ev in es[1..] ==> ev in es;
      OthersDoNotAdmit(Next(q, es[0]), es[1..], id);
    }
  }

  /** wait_for_turn returns exactly when its request has been given a slot, is suspended exactly when the
      request sleeps, and has raised exactly when the request neither runs nor waits for a notification. */
  lemma {:induction false} WaitReturnsIffAdmitted(q: QueueState, id: string, pauses: seq<Pause>)
    requires PausesObey(q, id, pauses) && id !in q.processing
    ensures WaitOutcome(q, id, pauses) == Admitted <==> id in AfterWait(q, id, pauses).processing
    ensures WaitOutcome(q, id, pauses) == StillAsleep <==> id in AfterWait(q, id, pauses).sleeping
    ensures WaitOutcome(q, id, pauses) == Expired <==>
      var after := AfterWait(q, id, pauses);
      id !in after.processing && id !in after.sleeping && id !in after.woken
    decreases pauses
  {
    if !Admits(q, id) && pauses != [] {
      OthersDoNotAdmit(Next(q, Check(id)), pauses[0].others, id);
      if !pauses[0].timesOut {
        WaitReturnsIffAdmitted(AfterPause(q, id, pauses[0]), id, pauses[1..]);
      }
    }
  }

  /** A wait raises only if one of its pauses times out, and is not suspended any more if one does. */
  lemma {:induction false} WaitEndsByTimeout(q: QueueState, id: string, pauses: seq<Pause>)
    ensures WaitOutcome(q, id, pauses) == Expired ==> exists k :: 0 <= k < |pauses| && pauses[k].timesOut
    ensures (exists k :: 0 <= k < |pauses| && pauses[k].timesOut) ==> WaitOutcome(q, id, pauses) != StillAsleep
    decreases pauses
  {
    if !Admits(q, id) && pauses != [] && !pauses[0].timesOut {
      var rest := pauses[1..];
      WaitEndsByTimeout(AfterPause(q, id, pauses[0]), id, rest);
      if k :| 0 <= k < |rest| && rest[k].timesOut {
        assert pauses[k + 1].timesOut;
      }
      if k :| 0 <= k < |pauses| && pauses[k].timesOut {
        assert rest[k - 1].timesOut;
      }
    }
  }
}
