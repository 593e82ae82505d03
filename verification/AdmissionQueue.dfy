/** The admission queue itself: a heap kept by heapq, proved to take the protocol's steps. */
module AdmissionQueue {
  import opened Requests
  import opened Wrappers
  import opened AdmissionProtocol
  import HeapQueue

  class PriorityQueue {
    var heap: seq<Entry>
    var maxSize: int
    var maxConcurrency: int
    var processing: set<string>
    var sleeping: set<string>  // waiters of the condition
    var woken: set<string>     // notified waiters that do not hold the lock yet

    ghost function Waiting(): set<Entry>
      reads this
    {
      set e | e in heap
    }

    ghost function View(): QueueState
      reads this
    {
      QueueState(Waiting(), processing, maxSize, maxConcurrency, sleeping, woken)
    }

    ghost predicate Valid()
      reads this
    {
      && HeapQueue.IsHeap(heap)
      && multiset(heap) == multiset(Waiting())
      && DistinctTies(Waiting())
      && DistinctIds(Waiting())
    }

    constructor (maxSize: int, maxConcurrency: int)
      ensures Valid()
      ensures View() == InitialQueue(maxSize, maxConcurrency)
    {
      this.heap := [];
      this.maxSize := maxSize;
      this.maxConcurrency := maxConcurrency;
      this.processing, this.sleeping, this.woken := {}, {}, {};
    }

    method WaitingCount() returns (n: nat)
      requires Valid()
      ensures n == |View().waiting|
    {
      n := |heap|;
      assert |multiset(heap)| == |multiset(Waiting())|;
    }

    method NotifyAll()
      modifies `sleeping, `woken
      ensures View() == Notified(old(View()))
    {
      woken := woken + sleeping;
      sleeping := {};
    }

    /** Replace the heap by one that holds w, given as a multiset equation. */
    method Adopt(h: seq<Entry>, ghost w: set<Entry>)
      requires HeapQueue.IsHeap(h) && multiset(h) == multiset(w)
      requires DistinctTies(w) && DistinctIds(w)
      modifies `heap
      ensures Valid() && Waiting() == w
    {
      heap := h;
      forall e ensures e in heap <==> e in w {
        assert e in heap <==> e in multiset(heap);
      }
    }

    method Enqueue(context: RequestContext, tiebreaker: int) returns (accepted: bool)
      requires Valid() && CallerObeys(View(), Event.Enqueue(context, tiebreaker))
      modifies this
      ensures Valid()
      ensures View() == Next(old(View()), Event.Enqueue(context, tiebreaker))
      ensures accepted <==> |old(View()).waiting| < old(maxSize)
    {
      var n := WaitingCount();
      if n >= maxSize {
        return false;
      }
      var entry := MakeEntry(context, tiebreaker);
      var h := HeapQueue.HeapPush(heap, entry);
      Adopt(h, Waiting() + {entry});
      NotifyAll();
      return true;
    }

    /** The lock-held turn of the loop in wait_for_turn for a request that is not asleep. */
    method CheckTurn(id: string) returns (admitted: bool)
      requires Valid() && CallerObeys(View(), Check(id))
      modifies this
      ensures Valid()
      ensures View() == Next(old(View()), Check(id))
      ensures admitted <==> Admits(old(View()), id)
      ensures admitted ==> exists e :: IsFront(e, old(Waiting())) && e.Id() == id && Waiting() == old(Waiting()) - {e}
    {
      if heap != [] {
        FrontIsHeapRoot();
      }
      if |processing| < maxConcurrency && heap != [] {
        var front := heap[0];
        if front.Id() == id {
          processing := processing + {id};
          var item, h := HeapQueue.HeapPop(heap);
          PoppedMultiset(Waiting(), front, multiset(h));
          Adopt(h, Waiting() - {front});
          woken := woken - {id};
          return true;
        }
      }
      sleeping := sleeping + {id};
      woken := woken - {id};
      return false;
    }

    lemma FrontIsHeapRoot()
      requires Valid() && heap != []
      ensures Front(Waiting()) == Some(heap[0])
    {
      forall o | o in Waiting() && o != heap[0] ensures Less(heap[0], o) {
        var i :| 0 <= i < |heap| && heap[i] == o;
        HeapQueue.RootIsSmallest(heap, i);
        assert o.tiebreaker != heap[0].tiebreaker;
      }
      assert IsFront(heap[0], Waiting());
      FrontIsUnique(heap[0], Front(Waiting()).value, Waiting());
    }

    lemma PoppedMultiset(w: set<Entry>, e: Entry, rest: multiset<Entry>)
      requires e in w && multiset(w) == rest + multiset{e}
      ensures rest == multiset(w - {e})
    {
      assert multiset(w) == multiset(w - {e}) + multiset{e};
      assert rest == multiset(w) - multiset{e};
      assert multiset(w - {e}) == multiset(w) - multiset{e};
    }

    /** asyncio.TimeoutError leaves wait_for_turn: the entry stays in the heap. */
    method AbandonWait(id: string)
      requires Valid() && CallerObeys(View(), Timeout(id))
      modifies `sleeping, `woken
      ensures Valid()
      ensures View() == Next(old(View()), Timeout(id))
    {
      sleeping := sleeping - {id};
      woken := woken - {id};
    }

    method SignalDone(id: string)
      requires Valid()
      modifies this
      ensures Valid()
      ensures View() == Next(old(View()), Done(id))
    {
      processing := processing - {id};
      NotifyAll();
    }

    method UpdateMaxSize(size: int)
      requires Valid()
      modifies `maxSize
      ensures Valid()
      ensures View() == Next(old(View()), SetMaxSize(size))
    {
      maxSize := size;
    }

    method UpdateConcurrency(limit: int)
      requires Valid()
      modifies this
      ensures Valid()
      ensures View() == Next(old(View()), SetConcurrency(limit))
    {
      maxConcurrency := limit;
      NotifyAll();
    }

    method Cancel(id: string, userName: string) returns (found: bool)
      requires Valid()
      modifies this
      ensures Valid()
      ensures View() == Next(old(View()), Event.Cancel(id, userName))
      ensures found <==> exists e :: e in old(Waiting()) && e.Id() == id && e.context.userName == userName
      ensures found ==> |Waiting()| == |old(Waiting())| - 1
      ensures !found ==> heap == old(heap) && View() == old(View())
    {
      var h;
      found, h := HeapQueue.RemoveFirstMatch(heap, id, userName);
      if !found {
        assert Matching(Waiting(), id, userName) == {};
        return;
      }
      ghost var e :| e in heap && e.Id() == id && e.context.userName == userName
                     && multiset(heap) == multiset(h) + multiset{e};
      OnlyMatch(Waiting(), e);
      PoppedMultiset(Waiting(), e, multiset(h));
      Adopt(h, Waiting() - {e});
      NotifyAll();
    }

    lemma OnlyMatch(w: set<Entry>, e: Entry)
      requires DistinctIds(w) && e in w
      ensures Matching(w, e.Id(), e.context.userName) == {e}
      ensures |w - {e}| == |w| - 1
    {
    }

    /** An event of another task. */
    method Perform(ev: Event)
      requires Valid() && CallerObeys(View(), ev)
      modifies this
      ensures Valid()
      ensures View() == Next(old(View()), ev)
    {
      match ev {
        case Enqueue(context, tiebreaker) => var _ := Enqueue(context, tiebreaker);
        case Check(id) => var _ := CheckTurn(id);
        case Timeout(id) => AbandonWait(id);
        case Done(id) => SignalDone(id);
        case Cancel(id, userName) => var _ := Cancel(id, userName);
        case SetMaxSize(size) => UpdateMaxSize(size);
        case SetConcurrency(limit) => UpdateConcurrency(limit);
      }
    }

    method PerformAll(es: seq<Event>)
      requires Valid() && AllObey(View(), es)
      modifies this
      ensures Valid()
      ensures View() == NextAll(old(View()), es)
    {
      var i := 0;
      while i < |es|
        invariant 0 <= i <= |es|
        invariant Valid() && AllObey(View(), es[i..])
        invariant NextAll(View(), es[i..]) == NextAll(old(View()), es)
      {
        assert es[i..][0] == es[i] && es[i..][1..] == es[i + 1..];
        Perform(es[i]);
        i := i + 1;
      }
    }

    /** The loop of wait_for_turn under a schedule of the other tasks. */
    method WaitForTurn(id: string, pauses: seq<Pause>) returns (outcome: Outcome)
      requires Valid() && PausesObey(View(), id, pauses)
      modifies this
      ensures Valid()
      ensures View() == AfterWait(old(View()), id, pauses)
      ensures outcome == WaitOutcome(old(View()), id, pauses)
    {
      var i := 0;
      while true
        invariant 0 <= i <= |pauses|
        invariant Valid() && PausesObey(View(), id, pauses[i..])
        invariant AfterWait(View(), id, pauses[i..]) == AfterWait(old(View()), id, pauses)
        invariant WaitOutcome(View(), id, pauses[i..]) == WaitOutcome(old(View()), id, pauses)
        decreases |pauses| - i
      {
        ghost var left := pauses[i..];
        assert i < |pauses| ==> left[0] == pauses[i] && left[1..] == pauses[i + 1..];
        var admitted := CheckTurn(id);
        if admitted {
          return Admitted;
        }
        if i == |pauses| {
          return StillAsleep;
        }
        PerformAll(pauses[i].others);
        if pauses[i].timesOut {
          AbandonWait(id);
          return Expired;
        }
        i := i + 1;
      }
    }
  }
}
