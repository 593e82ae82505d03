/** Requests, and the tuples that the admission queue orders. */
module Requests {

  /** The part of a request context that the queue and the request lifecycle read. */
  datatype RequestContext = RequestContext(
    requestId: string,
    userName: string,
    priority: int,
    timestamp: real,
    streamed: bool)

  /** A heap element: (priority, timestamp, tiebreaker, context). */
  datatype Entry = Entry(priority: int, timestamp: real, tiebreaker: int, context: RequestContext)
  {
    function Id(): string { context.requestId }
  }

  function MakeEntry(context: RequestContext, tiebreaker: int): Entry {
    Entry(context.priority, context.timestamp, tiebreaker, context)
  }

  /** Tuple comparison on the first three components. Contexts are never compared:
      tiebreakers of entries that are in the heap together are distinct. */
  predicate Less(a: Entry, b: Entry) {
    || a.priority < b.priority
    || (a.priority == b.priority && a.timestamp < b.timestamp)
    || (a.priority == b.priority && a.timestamp == b.timestamp && a.tiebreaker < b.tiebreaker)
  }

  predicate AtMost(a: Entry, b: Entry) {
    !Less(b, a)
  }

  lemma AtMostTransitive(a: Entry, b: Entry, c: Entry)
    requires AtMost(a, b) && AtMost(b, c)
    ensures AtMost(a, c)
  {
  }

  lemma LessTransitive(a: Entry, b: Entry, c: Entry)
    requires Less(b, c)
    ensures Less(a, b) ==> Less(a, c)
  {
  }

  predicate DistinctTies(w: set<Entry>) {
    forall a, b :: a in w && b in w && a.tiebreaker == b.tiebreaker ==> a == b
  }

  predicate DistinctIds(w: set<Entry>) {
    forall a, b :: a in w && b in w && a.Id() == b.Id() ==> a == b
  }

  /** e is strictly smaller than every other element of w. */
  predicate IsFront(e: Entry, w: set<Entry>) {
    e in w && forall o :: o in w && o != e ==> Less(e, o)
  }

  lemma FrontIsUnique(a: Entry, b: Entry, w: set<Entry>)
    requires IsFront(a, w) && IsFront(b, w)
    ensures a == b
  {
  }

  lemma {:induction false} FrontExists(w: set<Entry>) returns (f: Entry)
    requires w != {} && DistinctTies(w)
    ensures IsFront(f, w)
    decreases |w|
  {
    var e :| e in w;
    var rest := w - {e};
    if rest == {} {
      assert w == {e};
      return e;
    }
    assert DistinctTies(rest);
    var g := FrontExists(rest);
    assert e.tiebreaker != g.tiebreaker;
    assert Less(g, e) || Less(e, g);
    f := if Less(g, e) then g else e;
    forall o | o in w && o != f ensures Less(f, o) {
      if o in rest && o != g {
        assert Less(g, o);
        LessTransitive(e, g, o);
      }
    }
  }
}
