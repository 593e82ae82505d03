/** What request handlers do with the queue: enqueue, wait, call a backend or stream, release. */
module RequestLifecycle {
  import opened Requests
  import opened AdmissionProtocol
  import opened AdmissionSafety
  import opened AdmissionProgress

  /** Where the handler of a request stands. */
  datatype Phase =
    | Refused    // queue full, 429
    | Waiting    // inside wait_for_turn
    | TimedOut   // left wait_for_turn, 408
    | Serving    // admitted, backend call in progress
    | Streaming  // admitted, stream being iterated
    | Completed  // signal_done has run

  datatype World = World(s: System, phase: map<string, Phase>)

  datatype Move =
    | Arrive(context: RequestContext, tiebreaker: int)
    | Turn(id: string)
    | Expire(id: string)
    | BackendReturns(id: string)
    | StreamEnds(id: string)
    | CancelRequest(id: string, userName: string)
    | Resize(size: int)
    | Rescale(limit: int)

  function EventOf(m: Move): Event {
    match m
    case Arrive(context, tiebreaker) => Enqueue(context, tiebreaker)
    case Turn(id) => Check(id)
    case Expire(id) => Timeout(id)
    case BackendReturns(id) => Done(id)
    case StreamEnds(id) => Done(id)
    case CancelRequest(id, userName) => Cancel(id, userName)
    case Resize(size) => SetMaxSize(size)
    case Rescale(limit) => SetConcurrency(limit)
  }

  function Events(ms: seq<Move>): seq<Event> {
    seq(|ms|, i requires 0 <= i < |ms| => EventOf(ms[i]))
  }

  predicate InPhase(w: World, id: string, p: Phase) {
    id in w.phase && w.phase[id] == p
  }

  /** The control flow of the handlers. Ids are fresh, and entries in the heap have distinct tiebreakers. */
  ghost predicate CanMove(w: World, m: Move) {
    match m
    case Arrive(context, tiebreaker) =>
      context.requestId !in w.phase && forall e :: e in w.s.q.waiting ==> e.tiebreaker != tiebreaker
    case Turn(id) => InPhase(w, id, Waiting) && id !in w.s.q.sleeping
    case Expire(id) => InPhase(w, id, Waiting) && id in w.s.q.sleeping + w.s.q.woken
    case BackendReturns(id) => InPhase(w, id, Serving)
    case StreamEnds(id) => InPhase(w, id, Streaming)
    case _ => true
  }

  ghost function NextPhase(w: World, m: Move): map<string, Phase> {
    match m
    case Arrive(context, _) =>
      w.phase[context.requestId := if |w.s.q.waiting| < w.s.q.maxSize then Waiting else Refused]
    case Turn(id) =>
      if Admits(w.s.q, id) then
        w.phase[id := if Front(w.s.q.waiting).value.context.streamed then Streaming else Serving]
      else
        w.phase
    case Expire(id) => w.phase[id := TimedOut]
    case BackendReturns(id) => w.phase[id := Completed]
    case StreamEnds(id) => w.phase[id := Completed]
    case _ => w.phase
  }

  ghost function MoveTo(w: World, m: Move): World {
    World(Step(w.s, EventOf(m)), NextPhase(w, m))
  }

  ghost predicate ValidMoves(w: World, ms: seq<Move>)
    decreases ms
  {
    ms == [] || (CanMove(w, ms[0]) && ValidMoves(MoveTo(w, ms[0]), ms[1..]))
  }

  ghost function After(w: World, ms: seq<Move>): World
    decreases ms
  {
    if ms == [] then w else After(MoveTo(w, ms[0]), ms[1..])
  }

  function Start(maxSize: int, maxConcurrency: int): World {
    World(InitialSystem(maxSize, maxConcurrency), map[])
  }

  // ----- The invariant -----

  predicate Holding(w: World, id: string) {
    InPhase(w, id, Serving) || InPhase(w, id, Streaming)
  }

  /** The phases say which requests run, which finished, which were accepted, and who may be asleep. */
  ghost predicate PhasesAgree(w: World) {
    && (forall id :: id in w.s.q.processing <==> Holding(w, id))
    && (forall id :: id in w.s.finished <==> InPhase(w, id, Completed))
    && (forall id :: id in w.s.accepted <==> id in w.phase && w.phase[id] != Refused)
    && (forall id :: id in w.s.q.sleeping || id in w.s.q.woken ==> InPhase(w, id, Waiting))
  }

  ghost predicate Consistent(w: World) {
    && Conserved(w.s)
    && !Deadlocked(w.s.q)
    && PhasesAgree(w)
  }

  /** The handlers keep every promise the queue asks of its callers. */
  lemma HandlersObeyTheProtocol(w: World, m: Move)
    requires Consistent(w) && CanMove(w, m)
    ensures Enabled(w.s, EventOf(m))
  {
    if m.Arrive? {
      forall e | e in w.s.q.waiting ensures e.Id() != m.context.requestId {
        assert e.Id() in Ids(w.s.q.waiting);
      }
    }
  }

  lemma MoveKeepsSystem(w: World, m: Move)
    requires Consistent(w) && CanMove(w, m)
    ensures Conserved(MoveTo(w, m).s) && !Deadlocked(MoveTo(w, m).s.q)
  {
    HandlersObeyTheProtocol(w, m);
    StepConserves(w.s, EventOf(m));
    NeverDeadlocked(w.s, [EventOf(m)]);
    SingleStep(w.s, EventOf(m));
  }

  lemma ArriveKeepsPhases(w: World, m: Move)
    requires PhasesAgree(w) && CanMove(w, m) && m.Arrive?
    ensures PhasesAgree(MoveTo(w, m))
  {
    var v := MoveTo(w, m);
    if |w.s.q.waiting| >= w.s.q.maxSize {
      assert v.s == w.s;
    } else {
      assert v.s.q.processing == w.s.q.processing && v.s.finished == w.s.finished;
      assert v.s.q.sleeping == {} && v.s.q.woken == w.s.q.woken + w.s.q.sleeping;
    }
  }

  lemma AdmittedTurnKeepsPhases(w: World, id: string)
    requires PhasesAgree(w) && CanMove(w, Turn(id)) && Admits(w.s.q, id)
    ensures PhasesAgree(MoveTo(w, Turn(id)))
  {
    var v := MoveTo(w, Turn(id));
    assert v.s.q.processing == w.s.q.processing + {id} && v.s.finished == w.s.finished && v.s.accepted == w.s.accepted;
    assert v.s.q.sleeping == w.s.q.sleeping && v.s.q.woken == w.s.q.woken - {id};
    assert v.phase == w.phase[id := v.phase[id]] && Holding(v, id);
  }

  lemma RefusedTurnKeepsPhases(w: World, id: string)
    requires PhasesAgree(w) && CanMove(w, Turn(id)) && !Admits(w.s.q, id)
    ensures PhasesAgree(MoveTo(w, Turn(id)))
  {
    var v := MoveTo(w, Turn(id));
    assert v.s.q.processing == w.s.q.processing && v.s.finished == w.s.finished && v.s.accepted == w.s.accepted;
    assert v.s.q.sleeping == w.s.q.sleeping + {id} && v.s.q.woken == w.s.q.woken - {id};
    assert v.phase == w.phase;
  }

  lemma TurnKeepsPhases(w: World, m: Move)
    requires PhasesAgree(w) && CanMove(w, m) && m.Turn?
    ensures PhasesAgree(MoveTo(w, m))
  {
    if Admits(w.s.q, m.id) {
      AdmittedTurnKeepsPhases(w, m.id);
    } else {
      RefusedTurnKeepsPhases(w, m.id);
    }
  }

  lemma ExpireKeepsPhases(w: World, m: Move)
    requires PhasesAgree(w) && CanMove(w, m) && m.Expire?
    ensures PhasesAgree(MoveTo(w, m))
  {
  }

  lemma ReleaseKeepsPhases(w: World, m: Move)
    requires PhasesAgree(w) && CanMove(w, m) && (m.BackendReturns? || m.StreamEnds?)
    ensures PhasesAgree(MoveTo(w, m))
  {
  }

  lemma AdminKeepsPhases(w: World, m: Move)
    requires PhasesAgree(w) && CanMove(w, m) && (m.CancelRequest? || m.Resize? || m.Rescale?)
    ensures PhasesAgree(MoveTo(w, m))
  {
  }

  lemma MoveKeepsPhases(w: World, m: Move)
    requires PhasesAgree(w) && CanMove(w, m)
    ensures PhasesAgree(MoveTo(w, m))
  {
    match m
    case Arrive(_, _) => ArriveKeepsPhases(w, m);
    case Turn(_) => TurnKeepsPhases(w, m);
    case Expire(_) => ExpireKeepsPhases(w, m);
    case BackendReturns(_) => ReleaseKeepsPhases(w, m);
    case StreamEnds(_) => ReleaseKeepsPhases(w, m);
    case _ => AdminKeepsPhases(w, m);
  }

  lemma MoveKeepsConsistent(w: World, m: Move)
    requires Consistent(w) && CanMove(w, m)
    ensures Consistent(MoveTo(w, m))
  {
    MoveKeepsSystem(w, m);
    MoveKeepsPhases(w, m);
  }

  lemma StartIsConsistent(maxSize: int, maxConcurrency: int)
    ensures Consistent(Start(maxSize, maxConcurrency))
  {
  }

  lemma EventsUnfold(ms: seq<Move>)
    requires ms != []
    ensures Events(ms) == [EventOf(ms[0])] + Events(ms[1..])
    ensures Events(ms)[0] == EventOf(ms[0]) && Events(ms)[1..] == Events(ms[1..])
  {
  }

  /** Every interleaving of handlers is a valid run of the queue protocol. */
  lemma {:induction false} LifecycleRefinesProtocol(w: World, ms: seq<Move>)
    requires Consistent(w) && ValidMoves(w, ms)
    ensures Consistent(After(w, ms))
    ensures ValidRun(w.s, Events(ms))
    ensures After(w, ms).s == Run(w.s, Events(ms))
    decreases ms
  {
    if ms != [] {
      var v := MoveTo(w, ms[0]);
      MoveKeepsConsistent(w, ms[0]);
      HandlersObeyTheProtocol(w, ms[0]);
      LifecycleRefinesProtocol(v, ms[1..]);
      EventsUnfold(ms);
    }
  }

  // ----- Slot accounting -----

  /** How often a run admits id, and how often its handler releases. */
  ghost function Acquisitions(w: World, ms: seq<Move>, id: string): nat
    decreases ms
  {
    if ms == [] then 0
    else (if ms[0] == Turn(id) && Admits(w.s.q, id) then 1 else 0) + Acquisitions(MoveTo(w, ms[0]), ms[1..], id)
  }

  function Releases(ms: seq<Move>, id: string): nat {
    if ms == [] then 0
    else (if ms[0] == BackendReturns(id) || ms[0] == StreamEnds(id) then 1 else 0) + Releases(ms[1..], id)
  }

  function Acquired(w: World, id: string): nat {
    if Holding(w, id) || InPhase(w, id, Completed) then 1 else 0
  }

  function Released(w: World, id: string): nat {
    if InPhase(w, id, Completed) then 1 else 0
  }

  lemma CountsFollowMove(w: World, m: Move, id: string)
    requires CanMove(w, m)
    ensures Acquired(w, id) + (if m == Turn(id) && Admits(w.s.q, id) then 1 else 0) == Acquired(MoveTo(w, m), id)
    ensures Released(w, id) + (if m == BackendReturns(id) || m == StreamEnds(id) then 1 else 0)
            == Released(MoveTo(w, m), id)
  {
    assert NextPhase(w, m) == MoveTo(w, m).phase;
  }

  lemma {:induction false} CountsFollowPhases(w: World, ms: seq<Move>, id: string)
    requires ValidMoves(w, ms)
    ensures Acquired(w, id) + Acquisitions(w, ms, id) == Acquired(After(w, ms), id)
    ensures Released(w, id) + Releases(ms, id) == Released(After(w, ms), id)
    decreases ms
  {
    if ms != [] {
      CountsFollowMove(w, ms[0], id);
      CountsFollowPhases(MoveTo(w, ms[0]), ms[1..], id);
    }
  }

  /** In every reachable world the running set is exactly the requests between admission and release;
      a request is admitted at most once, and released exactly once if its handler has completed. */
  lemma SlotAccounting(maxSize: int, maxConcurrency: int, ms: seq<Move>, id: string)
    requires ValidMoves(Start(maxSize, maxConcurrency), ms)
    ensures var w0 := Start(maxSize, maxConcurrency);
      var w := After(w0, ms);
      && (id in w.s.q.processing <==> Holding(w, id))
      && Acquisitions(w0, ms, id) <= 1
      && Releases(ms, id) <= Acquisitions(w0, ms, id)
      && (id in w.s.q.processing <==> Acquisitions(w0, ms, id) == 1 && Releases(ms, id) == 0)
      && (InPhase(w, id, Completed) <==> Releases(ms, id) == 1)
  {
    var w0 := Start(maxSize, maxConcurrency);
    StartIsConsistent(maxSize, maxConcurrency);
    LifecycleRefinesProtocol(w0, ms);
    CountsFollowPhases(w0, ms, id);
    assert Acquired(w0, id) == 0 && Released(w0, id) == 0;
  }

  predicate TurnedAway(w: World, id: string) {
    InPhase(w, id, TimedOut) || InPhase(w, id, Refused)
  }

  lemma TurnedAwayStays(w: World, m: Move, id: string)
    requires CanMove(w, m) && TurnedAway(w, id)
    ensures TurnedAway(MoveTo(w, m), id) && MoveTo(w, m).phase[id] == w.phase[id]
  {
    assert MoveTo(w, m).phase == NextPhase(w, m);
  }

  /** A handler that answered 408 or 429 has ended for good. */
  lemma {:induction false} TurnedAwayForGood(w: World, ms: seq<Move>, id: string)
    requires ValidMoves(w, ms) && TurnedAway(w, id)
    ensures InPhase(After(w, ms), id, w.phase[id])
    decreases ms
  {
    if ms != [] {
      TurnedAwayStays(w, ms[0], id);
      TurnedAwayForGood(MoveTo(w, ms[0]), ms[1..], id);
    }
  }

  // ----- Streams -----

  /** The move by which a handler gives its slot back. */
  function ReleaseOf(id: string, streamed: bool): Move {
    if streamed then StreamEnds(id) else BackendReturns(id)
  }

  /** What waits or runs under id was asked for with this flag. */
  ghost predicate AskedFor(w: World, id: string, streamed: bool) {
    && (forall e :: e in w.s.q.waiting && e.Id() == id ==> e.context.streamed == streamed)
    && !InPhase(w, id, if streamed then Serving else Streaming)
  }

  lemma MoveKeepsAskedFor(w: World, m: Move, id: string, streamed: bool)
    requires CanMove(w, m) && AskedFor(w, id, streamed)
    requires m.Arrive? && m.context.requestId == id ==> m.context.streamed == streamed
    ensures AskedFor(MoveTo(w, m), id, streamed) && m != ReleaseOf(id, !streamed)
  {
    assert NextPhase(w, m) == MoveTo(w, m).phase;
  }

  lemma {:induction false} ReleasedOneWay(w: World, ms: seq<Move>, id: string, streamed: bool)
    requires ValidMoves(w, ms) && AskedFor(w, id, streamed)
    requires forall m :: m in ms && m.Arrive? && m.context.requestId == id ==> m.context.streamed == streamed
    ensures ReleaseOf(id, !streamed) !in ms
    decreases ms
  {
    if ms != [] {
      MoveKeepsAskedFor(w, ms[0], id, streamed);
      ReleasedOneWay(MoveTo(w, ms[0]), ms[1..], id, streamed);
      assert ms == [ms[0]] + ms[1..];
    }
  }

  lemma {:induction false} ArrivesOnce(w: World, ms: seq<Move>, i: nat, j: nat)
    requires ValidMoves(w, ms) && i < j < |ms| && ms[i].Arrive? && ms[j].Arrive?
    ensures ms[i].context.requestId != ms[j].context.requestId
    decreases ms
  {
    var v, rest := MoveTo(w, ms[0]), ms[1..];
    if i > 0 {
      assert rest[i - 1] == ms[i] && rest[j - 1] == ms[j];
      ArrivesOnce(v, rest, i - 1, j - 1);
    } else {
      assert rest[j - 1] == ms[j];
      NeverArrivesAgain(v, rest, ms[0].context.requestId, j - 1);
    }
  }

  lemma {:induction false} NeverArrivesAgain(w: World, ms: seq<Move>, id: string, j: nat)
    requires ValidMoves(w, ms) && id in w.phase && j < |ms| && ms[j].Arrive?
    ensures ms[j].context.requestId != id
    decreases ms
  {
    if j > 0 {
      assert ms[1..][j - 1] == ms[j];
      assert w.phase.Keys <= MoveTo(w, ms[0]).phase.Keys;
      NeverArrivesAgain(MoveTo(w, ms[0]), ms[1..], id, j - 1);
    }
  }

  /** In any run from the start, a request that asked for a stream gives its slot back at the end of its
      stream and nowhere else, and one that did not, when its backend has returned and nowhere else. */
  lemma StreamedReleases(maxSize: int, maxConcurrency: int, ms: seq<Move>, context: RequestContext, tiebreaker: int)
    requires ValidMoves(Start(maxSize, maxConcurrency), ms) && Arrive(context, tiebreaker) in ms
    ensures context.streamed ==> BackendReturns(context.requestId) !in ms
    ensures !context.streamed ==> StreamEnds(context.requestId) !in ms
  {
    var w0 := Start(maxSize, maxConcurrency);
    var i :| 0 <= i < |ms| && ms[i] == Arrive(context, tiebreaker);
    forall m | m in ms && m.Arrive? && m.context.requestId == context.requestId
      ensures m.context.streamed == context.streamed
    {
      var j :| 0 <= j < |ms| && ms[j] == m;
      if i < j {
        ArrivesOnce(w0, ms, i, j);
      } else if j < i {
        ArrivesOnce(w0, ms, j, i);
      }
    }
    ReleasedOneWay(w0, ms, context.requestId, context.streamed);
  }

  // ----- Abandoned entries -----

  lemma FrontHasHandler(w: World)
    requires Consistent(w) && Front(w.s.q.waiting).Some?
    ensures var id := Front(w.s.q.waiting).value.Id();
      InPhase(w, id, Waiting) || InPhase(w, id, TimedOut)
  {
    var f := Front(w.s.q.waiting).value;
    assert f.Id() in Ids(w.s.q.waiting);
  }

  /** With nothing processing and a limit of at least one, somebody can be admitted now exactly
      when the handler of the front entry has not timed out. */
  lemma ProgressIffFrontNotAbandoned(w: World)
    requires Consistent(w) && w.s.q.maxConcurrency >= 1 && w.s.q.processing == {} && w.s.q.waiting != {}
    ensures Front(w.s.q.waiting).Some?
    ensures (exists id :: CanMove(w, Turn(id)) && Admits(w.s.q, id))
      <==> !InPhase(w, Front(w.s.q.waiting).value.Id(), TimedOut)
  {
    var f := FrontExists(w.s.q.waiting);
    FrontIsUnique(f, Front(w.s.q.waiting).value, w.s.q.waiting);
    FrontHasHandler(w);
    if InPhase(w, f.Id(), Waiting) {
      assert CanMove(w, Turn(f.Id())) && Admits(w.s.q, f.Id());
    }
  }

  /** e is at the front and its handler has gone. */
  ghost predicate AbandonedFront(w: World, e: Entry) {
    IsFront(e, w.s.q.waiting) && InPhase(w, e.Id(), TimedOut)
  }

  /** Neither cancels e nor brings a request that sorts before it. */
  predicate LeavesFront(m: Move, e: Entry) {
    && (m.Arrive? ==> Less(e, MakeEntry(m.context, m.tiebreaker)))
    && (m.CancelRequest? ==> !(m.id == e.Id() && m.userName == e.context.userName))
  }

  lemma AbandonedFrontStays(w: World, m: Move, e: Entry)
    requires Consistent(w) && CanMove(w, m) && AbandonedFront(w, e) && LeavesFront(m, e)
    ensures AbandonedFront(MoveTo(w, m), e)
    ensures AdmittedBy(w.s.q, EventOf(m)) == []
  {
    FrontIsUnique(e, Front(w.s.q.waiting).value, w.s.q.waiting);
    assert e.Id() in Ids(w.s.q.waiting);
  }

  /** An abandoned front entry blocks everybody: until it is cancelled or something sorts before it,
      no request at all is admitted, however many slots are free. */
  lemma {:induction false} AbandonedFrontBlocks(w: World, ms: seq<Move>, e: Entry)
    requires Consistent(w) && ValidMoves(w, ms) && AbandonedFront(w, e)
    requires forall m :: m in ms ==> LeavesFront(m, e)
    ensures Admissions(w.s, Events(ms)) == []
    ensures AbandonedFront(After(w, ms), e)
    decreases ms
  {
    if ms != [] {
      MoveKeepsConsistent(w, ms[0]);
      AbandonedFrontStays(w, ms[0], e);
      AbandonedFrontBlocks(MoveTo(w, ms[0]), ms[1..], e);
      EventsUnfold(ms);
    }
  }

  /** Takes nothing out of the full heap and makes no room in it. */
  predicate LeavesFull(m: Move, waiting: set<Entry>) {
    && (m.CancelRequest? ==> Matching(waiting, m.id, m.userName) == {})
    && (m.Resize? ==> m.size <= |waiting|)
  }

  ghost predicate FullBehind(w: World, e: Entry) {
    AbandonedFront(w, e) && |w.s.q.waiting| >= w.s.q.maxSize
  }

  lemma FullHeapStays(w: World, m: Move, e: Entry)
    requires Consistent(w) && CanMove(w, m) && FullBehind(w, e) && LeavesFull(m, w.s.q.waiting)
    ensures FullBehind(MoveTo(w, m), e) && MoveTo(w, m).s.q.waiting == w.s.q.waiting
    ensures MoveTo(w, m).s.accepted == w.s.accepted && AdmittedBy(w.s.q, EventOf(m)) == []
    ensures m.Arrive? ==> InPhase(MoveTo(w, m), m.context.requestId, Refused)
  {
    FrontIsUnique(e, Front(w.s.q.waiting).value, w.s.q.waiting);
    assert e.Id() in Ids(w.s.q.waiting);
  }

  /** Behind an abandoned front entry, a heap that is full stays as it is: whatever arrives is refused and
      nothing is admitted, until a waiting entry is cancelled or the queue is made larger. */
  lemma {:induction false} FullHeapIsStuck(w: World, ms: seq<Move>, e: Entry)
    requires Consistent(w) && ValidMoves(w, ms) && FullBehind(w, e)
    requires forall m :: m in ms ==> LeavesFull(m, w.s.q.waiting)
    ensures Admissions(w.s, Events(ms)) == []
    ensures After(w, ms).s.q.waiting == w.s.q.waiting && After(w, ms).s.accepted == w.s.accepted
    ensures forall m :: m in ms && m.Arrive? ==> InPhase(After(w, ms), m.context.requestId, Refused)
    decreases ms
  {
    if ms != [] {
      var v := MoveTo(w, ms[0]);
      MoveKeepsConsistent(w, ms[0]);
      FullHeapStays(w, ms[0], e);
      FullHeapIsStuck(v, ms[1..], e);
      EventsUnfold(ms);
      if ms[0].Arrive? {
        TurnedAwayForGood(v, ms[1..], ms[0].context.requestId);
      }
    }
  }

  // ----- Finishing everything -----

  /** A waiting entry whose handler has gone. */
  ghost predicate HasAbandoned(w: World) {
    exists e :: e in w.s.q.waiting && InPhase(w, e.Id(), TimedOut)
  }

  predicate Progresses(m: Move) {
    m.Turn? || m.BackendReturns? || m.StreamEnds?
  }

  /** A run of admissions and releases that leaves nothing in the heap or running. */
  ghost predicate EmptiesQueue(w: World, ms: seq<Move>) {
    && ValidMoves(w, ms)
    && (forall m :: m in ms ==> Progresses(m))
    && After(w, ms).s.q.waiting == {} && After(w, ms).s.q.processing == {}
  }

  /** The request was cancelled and its handler is still inside wait_for_turn. */
  predicate Stranded(w: World, id: string) {
    InPhase(w, id, Waiting) && id in w.s.cancelled
  }

  predicate Ended(w: World, id: string) {
    InPhase(w, id, Refused) || InPhase(w, id, TimedOut) || InPhase(w, id, Completed)
  }

  /** A run of admissions and releases after which the heap is empty and every handler has ended. */
  ghost predicate Finishes(w: World, ms: seq<Move>) {
    && ValidMoves(w, ms)
    && (forall m :: m in ms ==> Progresses(m))
    && After(w, ms).s.q.waiting == {}
    && (forall id :: id in w.phase ==> Ended(After(w, ms), id))
  }

  lemma AbandonedStays(w: World, m: Move, e: Entry)
    requires CanMove(w, m) && Progresses(m)
    requires e in w.s.q.waiting && InPhase(w, e.Id(), TimedOut)
    ensures e in MoveTo(w, m).s.q.waiting && InPhase(MoveTo(w, m), e.Id(), TimedOut)
  {
  }

  lemma {:induction false} AbandonedNeverLeaves(w: World, ms: seq<Move>, e: Entry)
    requires Consistent(w) && ValidMoves(w, ms) && forall m :: m in ms ==> Progresses(m)
    requires e in w.s.q.waiting && InPhase(w, e.Id(), TimedOut)
    ensures e in After(w, ms).s.q.waiting
    decreases ms
  {
    if ms != [] {
      MoveKeepsConsistent(w, ms[0]);
      AbandonedStays(w, ms[0], e);
      AbandonedNeverLeaves(MoveTo(w, ms[0]), ms[1..], e);
    }
  }

  lemma ReleaseMove(w: World, id: string) returns (m: Move)
    requires PhasesAgree(w) && id in w.s.q.processing
    ensures CanMove(w, m) && Progresses(m) && Drains(w.s, EventOf(m))
  {
    assert Holding(w, id);
    m := if InPhase(w, id, Serving) then BackendReturns(id) else StreamEnds(id);
    assert EventOf(m) == Done(id);
  }

  lemma AdmissionMove(w: World) returns (m: Move)
    requires Consistent(w) && !HasAbandoned(w) && w.s.q.maxConcurrency >= 1
    requires w.s.q.processing == {} && w.s.q.waiting != {}
    ensures CanMove(w, m) && Progresses(m) && Drains(w.s, EventOf(m))
  {
    ProgressIffFrontNotAbandoned(w);
    var id :| CanMove(w, Turn(id)) && Admits(w.s.q, id);
    m := Turn(id);
    HandlersObeyTheProtocol(w, m);
  }

  /** If anything waits, the limit allows an admission. */
  predicate LimitAdmits(w: World) {
    w.s.q.waiting == {} || w.s.q.maxConcurrency >= 1
  }

  /** While work is left and nothing is abandoned, some handler can admit or release. */
  lemma ProgressMove(w: World) returns (m: Move)
    requires Consistent(w) && !HasAbandoned(w) && LimitAdmits(w) && Work(w.s.q) > 0
    ensures CanMove(w, m) && Progresses(m) && Drains(w.s, EventOf(m))
  {
    if w.s.q.processing != {} {
      var id :| id in w.s.q.processing;
      m := ReleaseMove(w, id);
    } else {
      assert w.s.q.waiting != {};
      m := AdmissionMove(w);
    }
  }

  lemma ProgressAbandonsNobody(w: World, m: Move)
    requires Consistent(w) && !HasAbandoned(w) && CanMove(w, m) && Progresses(m)
    ensures !HasAbandoned(MoveTo(w, m))
  {
    var v := MoveTo(w, m);
    forall e | e in v.s.q.waiting ensures !InPhase(v, e.Id(), TimedOut) {
      assert e in w.s.q.waiting;
    }
  }

  lemma EmptiesOneMore(w: World, m: Move, rest: seq<Move>)
    requires CanMove(w, m) && Progresses(m) && EmptiesQueue(MoveTo(w, m), rest)
    ensures EmptiesQueue(w, [m] + rest)
  {
    var ms := [m] + rest;
    assert ms[0] == m && ms[1..] == rest;
    assert After(w, ms) == After(MoveTo(w, m), rest);
    assert forall x :: x in ms ==> x == m || x in rest;
  }

  lemma NothingLeft(w: World)
    requires Work(w.s.q) == 0
    ensures EmptiesQueue(w, [])
  {
    NoWorkNoDrain(w.s);
  }

  lemma DrainKeepsLimit(s: System, ev: Event)
    requires Drains(s, ev)
    ensures Step(s, ev).q.waiting <= s.q.waiting && Step(s, ev).q.maxConcurrency == s.q.maxConcurrency
  {
  }

  lemma MoveWorks(w: World, m: Move)
    requires Consistent(w) && CanMove(w, m) && Drains(w.s, EventOf(m))
    ensures Work(MoveTo(w, m).s.q) == Work(w.s.q) - 1
    ensures LimitAdmits(w) ==> LimitAdmits(MoveTo(w, m))
  {
    DrainStepWorks(w.s, EventOf(m));
    DrainKeepsLimit(w.s, EventOf(m));
  }

  lemma {:induction false} EmptyingRun(w: World) returns (ms: seq<Move>)
    requires Consistent(w) && !HasAbandoned(w) && LimitAdmits(w)
    ensures EmptiesQueue(w, ms) && |ms| == Work(w.s.q)
    decreases Work(w.s.q)
  {
    if Work(w.s.q) == 0 {
      NothingLeft(w);
      ms := [];
    } else {
      var m := ProgressMove(w);
      MoveKeepsConsistent(w, m);
      ProgressAbandonsNobody(w, m);
      MoveWorks(w, m);
      var rest := EmptyingRun(MoveTo(w, m));
      ms := [m] + rest;
      EmptiesOneMore(w, m, rest);
    }
  }

  /** Admissions and releases cancel nothing, start no wait, and forget no handler. */
  lemma ProgressCancelsNothing(w: World, m: Move)
    requires CanMove(w, m) && Progresses(m)
    ensures MoveTo(w, m).s.cancelled == w.s.cancelled
    ensures forall id :: InPhase(MoveTo(w, m), id, Waiting) ==> InPhase(w, id, Waiting)
    ensures MoveTo(w, m).phase.Keys == w.phase.Keys
  {
  }

  lemma {:induction false} NobodyStartsWaiting(w: World, ms: seq<Move>)
    requires ValidMoves(w, ms) && forall m :: m in ms ==> Progresses(m)
    ensures After(w, ms).s.cancelled == w.s.cancelled
    ensures forall id :: InPhase(After(w, ms), id, Waiting) ==> InPhase(w, id, Waiting)
    ensures After(w, ms).phase.Keys == w.phase.Keys
    decreases ms
  {
    if ms != [] {
      ProgressCancelsNothing(w, ms[0]);
      NobodyStartsWaiting(MoveTo(w, ms[0]), ms[1..]);
    }
  }

  /** Nothing but its own timeout moves a handler whose request left the heap by cancellation. */
  lemma StrandedStays(w: World, m: Move, id: string)
    requires Consistent(w) && CanMove(w, m) && Stranded(w, id)
    ensures if m == Expire(id) then InPhase(MoveTo(w, m), id, TimedOut) else Stranded(MoveTo(w, m), id)
  {
    assert id !in Ids(w.s.q.waiting);
    var front := Front(w.s.q.waiting);
    assert front.Some? ==> front.value.Id() in Ids(w.s.q.waiting);
  }

  /** Whatever all handlers and administrators do, a handler whose request was cancelled is never
      admitted and never leaves its wait, except by its own timeout. */
  lemma {:induction false} StrandedUntilTimeout(w: World, ms: seq<Move>, id: string)
    requires Consistent(w) && ValidMoves(w, ms) && Stranded(w, id)
    ensures if Expire(id) in ms then InPhase(After(w, ms), id, TimedOut) else Stranded(After(w, ms), id)
    ensures Acquisitions(w, ms, id) == 0
    decreases ms
  {
    CountsFollowPhases(w, ms, id);
    if ms != [] {
      var v := MoveTo(w, ms[0]);
      assert ms == [ms[0]] + ms[1..];
      StrandedStays(w, ms[0], id);
      MoveKeepsConsistent(w, ms[0]);
      if ms[0] == Expire(id) {
        TurnedAwayForGood(v, ms[1..], id);
      } else {
        StrandedUntilTimeout(v, ms[1..], id);
      }
    }
  }

  lemma NothingAdmittedNow(w: World, m: Move)
    requires w.s.q.maxConcurrency < 1 && Progresses(m)
    ensures MoveTo(w, m).s.q.waiting == w.s.q.waiting
    ensures MoveTo(w, m).s.q.maxConcurrency == w.s.q.maxConcurrency
  {
  }

  /** With a limit below one the heap never shrinks. */
  lemma {:induction false} NothingAdmitted(w: World, ms: seq<Move>)
    requires w.s.q.maxConcurrency < 1 && forall m :: m in ms ==> Progresses(m)
    ensures After(w, ms).s.q.waiting == w.s.q.waiting
    decreases ms
  {
    if ms != [] {
      assert Progresses(ms[0]) && forall m :: m in ms[1..] ==> m in ms;
      NothingAdmittedNow(w, ms[0]);
      NothingAdmitted(MoveTo(w, ms[0]), ms[1..]);
    }
  }

  /** Once the queue is empty, only stranded handlers have not ended. */
  lemma OnlyStrandedAreLeft(w: World, id: string)
    requires Consistent(w) && w.s.q.waiting == {} && w.s.q.processing == {}
    requires id in w.phase && !Ended(w, id)
    ensures Stranded(w, id)
  {
    assert !Holding(w, id);
    assert id in w.s.accepted && id !in w.s.finished;
    assert Ids(w.s.q.waiting) == {};
  }

  lemma FinishingRun(w: World) returns (ms: seq<Move>)
    requires Consistent(w) && !HasAbandoned(w) && LimitAdmits(w) && forall id :: !Stranded(w, id)
    ensures Finishes(w, ms)
  {
    ms := EmptyingRun(w);
    var v := After(w, ms);
    LifecycleRefinesProtocol(w, ms);
    NobodyStartsWaiting(w, ms);
    forall id | id in w.phase ensures Ended(v, id) {
      if !Ended(v, id) {
        OnlyStrandedAreLeft(v, id);
        assert Stranded(w, id);
        assert false;
      }
    }
  }

  lemma FinishingNeeds(w: World, ms: seq<Move>)
    requires Consistent(w) && Finishes(w, ms)
    ensures !HasAbandoned(w) && LimitAdmits(w) && forall id :: !Stranded(w, id)
  {
    if HasAbandoned(w) {
      var e :| e in w.s.q.waiting && InPhase(w, e.Id(), TimedOut);
      AbandonedNeverLeaves(w, ms, e);
      assert false;
    }
    if w.s.q.maxConcurrency < 1 {
      NothingAdmitted(w, ms);
    }
    forall id ensures !Stranded(w, id) {
      if Stranded(w, id) {
        StrandedUntilTimeout(w, ms, id);
        assert false;
      }
    }
  }

  /** Without arrivals, cancellations and timeouts, the handlers can all end with an empty heap exactly
      when no waiting entry has been abandoned by a timeout, no handler still waits for a request that
      was cancelled, and the limit admits somebody if anybody waits. */
  lemma FinishableIff(w: World)
    requires Consistent(w)
    ensures (exists ms :: Finishes(w, ms)) <==>
      !HasAbandoned(w) && (forall id :: !Stranded(w, id)) && LimitAdmits(w)
  {
    if !HasAbandoned(w) && (forall id :: !Stranded(w, id)) && LimitAdmits(w) {
      var ms := FinishingRun(w);
    }
    if ms :| Finishes(w, ms) {
      FinishingNeeds(w, ms);
    }
  }

  // ----- Runs that get stuck -----

  lemma FirstMove(w: World, m: Move, rest: seq<Move>)
    ensures ValidMoves(w, [m] + rest) <==> CanMove(w, m) && ValidMoves(MoveTo(w, m), rest)
    ensures After(w, [m] + rest) == After(MoveTo(w, m), rest)
  {
    assert ([m] + rest)[1..] == rest;
  }

  lemma CancelledRun(w0: World) returns (ms: seq<Move>)
    requires w0 == Start(1, 1)
    ensures ms == [Arrive(FIRST, 1), CancelRequest("a", "anonymous")]
    ensures ValidMoves(w0, ms)
    ensures After(w0, ms).s.q == QueueState({}, {}, 1, 1, {}, {})
    ensures After(w0, ms).phase == map["a" := Waiting] && "a" in After(w0, ms).s.cancelled
  {
    var arrive, cancel := Arrive(FIRST, 1), CancelRequest("a", "anonymous");
    var w1 := MoveTo(w0, arrive);
    assert w1.s.q == QueueState({MakeEntry(FIRST, 1)}, {}, 1, 1, {}, {});
    assert Matching(w1.s.q.waiting, "a", "anonymous") == {MakeEntry(FIRST, 1)};
    FirstMove(w1, cancel, []);
    FirstMove(w0, arrive, [cancel] + []);
    ms := [arrive] + ([cancel] + []);
    assert ms == [arrive, cancel];
  }

  /** A request arrives and is cancelled: its handler is stranded in an otherwise idle gateway. */
  lemma CancelStrandsTheHandler() returns (ms: seq<Move>)
    ensures ms == [Arrive(FIRST, 1), CancelRequest("a", "anonymous")]
    ensures var w := After(Start(1, 1), ms);
      ValidMoves(Start(1, 1), ms) && Consistent(w) && !HasAbandoned(w) && Stranded(w, "a")
      && w.s.q.waiting == {} && w.s.q.processing == {}
  {
    ms := CancelledRun(Start(1, 1));
    StartIsConsistent(1, 1);
    LifecycleRefinesProtocol(Start(1, 1), ms);
  }

  const BOTH := {MakeEntry(FIRST, 1), MakeEntry(SECOND, 2)}

  /** Two requests arrive, the less urgent one first; it looks, sleeps and times out. */
  lemma SecondTimesOut(w0: World) returns (ms: seq<Move>)
    requires w0 == Start(2, 1)
    ensures ms == [Arrive(SECOND, 2), Arrive(FIRST, 1), Turn("b"), Expire("b")]
    ensures ValidMoves(w0, ms)
    ensures After(w0, ms).s.q == QueueState(BOTH, {}, 2, 1, {}, {})
    ensures After(w0, ms).phase == map["a" := Waiting, "b" := TimedOut]
  {
    assert "a"[0] != "b"[0];
    var second, first := Arrive(SECOND, 2), Arrive(FIRST, 1);
    var w1 := MoveTo(w0, second);
    assert w1.s.q == QueueState({MakeEntry(SECOND, 2)}, {}, 2, 1, {}, {});
    var w2 := MoveTo(w1, first);
    assert w2.s.q == QueueState(BOTH, {}, 2, 1, {}, {});
    assert IsFront(MakeEntry(FIRST, 1), BOTH);
    FrontIsUnique(MakeEntry(FIRST, 1), Front(BOTH).value, BOTH);
    var w3 := MoveTo(w2, Turn("b"));
    assert w3.s.q == w2.s.q.(sleeping := {"b"});
    FirstMove(w3, Expire("b"), []);
    FirstMove(w2, Turn("b"), [Expire("b")] + []);
    FirstMove(w1, first, [Turn("b")] + ([Expire("b")] + []));
    FirstMove(w0, second, [first] + ([Turn("b")] + ([Expire("b")] + [])));
    ms := [second] + ([first] + ([Turn("b")] + ([Expire("b")] + [])));
    assert ms == [second, first, Turn("b"), Expire("b")];
  }

  lemma FirstIsServed(w0: World) returns (ms: seq<Move>)
    requires w0.s.q == QueueState(BOTH, {}, 2, 1, {}, {})
    requires w0.phase == map["a" := Waiting, "b" := TimedOut]
    ensures ms == [Turn("a"), BackendReturns("a")]
    ensures ValidMoves(w0, ms)
    ensures AbandonedFront(After(w0, ms), MakeEntry(SECOND, 2)) && SlotFree(After(w0, ms).s.q)
  {
    assert "a"[0] != "b"[0];
    assert IsFront(MakeEntry(FIRST, 1), BOTH);
    FrontIsUnique(MakeEntry(FIRST, 1), Front(BOTH).value, BOTH);
    var w1 := MoveTo(w0, Turn("a"));
    assert w1.s.q.waiting == {MakeEntry(SECOND, 2)} && w1.s.q.processing == {"a"};
    assert InPhase(w1, "a", Serving);
    var w2 := MoveTo(w1, BackendReturns("a"));
    assert w2.s.q.processing == {} && w2.s.q.waiting == {MakeEntry(SECOND, 2)};
    assert IsFront(MakeEntry(SECOND, 2), w2.s.q.waiting);
    FirstMove(w1, BackendReturns("a"), []);
    FirstMove(w0, Turn("a"), [BackendReturns("a")] + []);
    ms := [Turn("a")] + ([BackendReturns("a")] + []);
    assert ms == [Turn("a"), BackendReturns("a")];
  }

  lemma {:induction false} MovesCompose(w: World, ms: seq<Move>, ns: seq<Move>)
    ensures ValidMoves(w, ms + ns) <==> ValidMoves(w, ms) && ValidMoves(After(w, ms), ns)
    ensures After(w, ms + ns) == After(After(w, ms), ns)
    decreases ms
  {
    if ms == [] {
      assert ms + ns == ns;
    } else {
      assert ms + ns == [ms[0]] + (ms[1..] + ns);
      FirstMove(w, ms[0], ms[1..] + ns);
      MovesCompose(MoveTo(w, ms[0]), ms[1..], ns);
    }
  }

  lemma TwoRuns(maxSize: int, maxConcurrency: int, before: seq<Move>, after: seq<Move>)
    requires var w0 := Start(maxSize, maxConcurrency);
      ValidMoves(w0, before) && ValidMoves(After(w0, before), after)
    ensures var w0 := Start(maxSize, maxConcurrency);
      && ValidMoves(w0, before + after) && Consistent(After(w0, before + after))
      && After(w0, before + after) == After(After(w0, before), after)
  {
    var w0 := Start(maxSize, maxConcurrency);
    MovesCompose(w0, before, after);
    StartIsConsistent(maxSize, maxConcurrency);
    LifecycleRefinesProtocol(w0, before + after);
  }

  /** An abandoned entry reaches the front with the only slot free. */
  lemma TimeoutLeavesAnAbandonedFront() returns (ms: seq<Move>)
    ensures ms == [Arrive(SECOND, 2), Arrive(FIRST, 1), Turn("b"), Expire("b")] + [Turn("a"), BackendReturns("a")]
    ensures var w := After(Start(2, 1), ms);
      ValidMoves(Start(2, 1), ms) && Consistent(w) && AbandonedFront(w, MakeEntry(SECOND, 2)) && SlotFree(w.s.q)
  {
    var w0 := Start(2, 1);
    var before := SecondTimesOut(w0);
    var after := FirstIsServed(After(w0, before));
    ms := before + after;
    TwoRuns(2, 1, before, after);
  }

  lemma SecondQueuesBehindFirst(w0: World) returns (ms: seq<Move>)
    requires w0 == Start(1, 1)
    ensures ms == [Arrive(FIRST, 1), Turn("a"), Arrive(SECOND, 2)] && ValidMoves(w0, ms)
    ensures After(w0, ms).s.q == QueueState({MakeEntry(SECOND, 2)}, {"a"}, 1, 1, {}, {})
    ensures After(w0, ms).phase == map["a" := Serving, "b" := Waiting]
  {
    assert "a"[0] != "b"[0];
    var first, second := Arrive(FIRST, 1), Arrive(SECOND, 2);
    var w1 := MoveTo(w0, first);
    assert w1.s.q == QueueState({MakeEntry(FIRST, 1)}, {}, 1, 1, {}, {});
    assert IsFront(MakeEntry(FIRST, 1), {MakeEntry(FIRST, 1)});
    FrontIsUnique(MakeEntry(FIRST, 1), Front({MakeEntry(FIRST, 1)}).value, {MakeEntry(FIRST, 1)});
    var w2 := MoveTo(w1, Turn("a"));
    assert w2.s.q == QueueState({}, {"a"}, 1, 1, {}, {});
    assert w2.phase == map["a" := Serving];
    FirstMove(w2, second, []);
    FirstMove(w1, Turn("a"), [second] + []);
    FirstMove(w0, first, [Turn("a")] + ([second] + []));
    ms := [first] + ([Turn("a")] + ([second] + []));
    assert ms == [first, Turn("a"), second];
  }

  lemma SecondGivesUp(w0: World) returns (ms: seq<Move>)
    requires w0.s.q == QueueState({MakeEntry(SECOND, 2)}, {"a"}, 1, 1, {}, {})
    requires w0.phase == map["a" := Serving, "b" := Waiting]
    ensures ms == [Turn("b"), Expire("b"), BackendReturns("a")] && ValidMoves(w0, ms)
    ensures FullBehind(After(w0, ms), MakeEntry(SECOND, 2)) && After(w0, ms).s.q.processing == {}
  {
    assert "a"[0] != "b"[0];
    var w1 := MoveTo(w0, Turn("b"));
    assert w1.s.q == w0.s.q.(sleeping := {"b"}) && w1.phase == w0.phase;
    var w2 := MoveTo(w1, Expire("b"));
    assert w2.s.q == w0.s.q && w2.phase == map["a" := Serving, "b" := TimedOut];
    var w3 := MoveTo(w2, BackendReturns("a"));
    assert w3.s.q == QueueState({MakeEntry(SECOND, 2)}, {}, 1, 1, {}, {});
    assert IsFront(MakeEntry(SECOND, 2), {MakeEntry(SECOND, 2)});
    FirstMove(w2, BackendReturns("a"), []);
    FirstMove(w1, Expire("b"), [BackendReturns("a")] + []);
    FirstMove(w0, Turn("b"), [Expire("b")] + ([BackendReturns("a")] + []));
    ms := [Turn("b")] + ([Expire("b")] + ([BackendReturns("a")] + []));
    assert ms == [Turn("b"), Expire("b"), BackendReturns("a")];
  }

  /** A queue of size one with nothing running, filled for good by a request that has timed out. */
  lemma TimeoutFillsTheQueue() returns (ms: seq<Move>)
    ensures ms == [Arrive(FIRST, 1), Turn("a"), Arrive(SECOND, 2)] + [Turn("b"), Expire("b"), BackendReturns("a")]
    ensures var w := After(Start(1, 1), ms);
      ValidMoves(Start(1, 1), ms) && Consistent(w) && FullBehind(w, MakeEntry(SECOND, 2)) && w.s.q.processing == {}
  {
    var w0 := Start(1, 1);
    var before := SecondQueuesBehindFirst(w0);
    var after := SecondGivesUp(After(w0, before));
    ms := before + after;
    TwoRuns(1, 1, before, after);
  }
}
