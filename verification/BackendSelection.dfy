/** Eligibility, round-robin selection, and the bounded retry of non-streaming requests. */
module BackendSelection {
  import opened Wrappers
  import opened HealthChecking

  predicate ServesModel(b: Backend, model: string) {
    model == "" || b.models == [] || "*" in b.models || model in b.models
  }

  predicate Eligible(b: Backend, health: HealthTable, protocol: string, model: string, exclude: set<string>) {
    && b.baseUrl !in exclude
    && b.enabled
    && protocol in b.protocols
    && Lookup(health, b.baseUrl).healthy
    && ServesModel(b, model)
  }

  function EligibleList(backends: seq<Backend>, health: HealthTable, protocol: string, model: string,
                        exclude: set<string>): seq<Backend>
  {
    if backends == [] then []
    else
      var n := |backends| - 1;
      var before := EligibleList(backends[..n], health, protocol, model, exclude);
      if Eligible(backends[n], health, protocol, model, exclude) then before + [backends[n]] else before
  }

  lemma {:induction false} EligibleListIsTheFilter(backends: seq<Backend>, health: HealthTable, protocol: string,
                                                   model: string, exclude: set<string>)
    ensures forall b ::
      b in EligibleList(backends, health, protocol, model, exclude)
      <==> b in backends && Eligible(b, health, protocol, model, exclude)
  {
    if backends != [] {
      var n := |backends| - 1;
      EligibleListIsTheFilter(backends[..n], health, protocol, model, exclude);
      assert backends == backends[..n] + [backends[n]];
    }
  }

  ghost predicate NoneEligible(backends: seq<Backend>, health: HealthTable, protocol: string, model: string,
                               exclude: set<string>)
  {
    forall b :: b in backends ==> !Eligible(b, health, protocol, model, exclude)
  }

  /** Rotation state: the next index of each protocol. */
  type Indices = map<string, nat>

  function Stored(indices: Indices, protocol: string): nat {
    if protocol in indices then indices[protocol] else 0
  }

  function Position(indices: Indices, protocol: string, n: nat): nat
    requires n > 0
  {
    Stored(indices, protocol) % n
  }

  function Rotated(indices: Indices, protocol: string, n: nat): Indices {
    if n == 0 then indices else indices[protocol := Position(indices, protocol, n) + 1]
  }

  /** What a request sees when it selects: the configured backends, their health, and the rotation
      state as other requests left it. */
  datatype Surroundings = Surroundings(backends: seq<Backend>, health: HealthTable, indices: Indices)

  /** The round-robin choice in given surroundings. */
  function Picked(s: Surroundings, protocol: string, model: string, exclude: set<string>): (choice: Option<Backend>)
    ensures choice.Some? ==> choice.value in s.backends && Eligible(choice.value, s.health, protocol, model, exclude)
    ensures choice.None? <==> NoneEligible(s.backends, s.health, protocol, model, exclude)
  {
    EligibleListIsTheFilter(s.backends, s.health, protocol, model, exclude);
    var eligible := EligibleList(s.backends, s.health, protocol, model, exclude);
    if eligible == [] then None else Some(eligible[Position(s.indices, protocol, |eligible|)])
  }

  /** A backend is chosen exactly when a configured one is enabled, not excluded, speaks the protocol, is
      healthy and serves the model: none is asked for, or its list is empty, has the wildcard, or names it.
      The chosen one is all that. */
  lemma PickedIff(s: Surroundings, protocol: string, model: string, exclude: set<string>)
    ensures Picked(s, protocol, model, exclude).Some? <==> exists b ::
      && b in s.backends && b.enabled && b.baseUrl !in exclude && protocol in b.protocols
      && Lookup(s.health, b.baseUrl).healthy
      && (model == "" || b.models == [] || "*" in b.models || model in b.models)
    ensures Picked(s, protocol, model, exclude).Some? ==>
      var b := Picked(s, protocol, model, exclude).value;
      && b in s.backends && b.enabled && b.baseUrl !in exclude && protocol in b.protocols
      && Lookup(s.health, b.baseUrl).healthy
      && (model == "" || b.models == [] || "*" in b.models || model in b.models)
  {
    if b :| b in s.backends && Eligible(b, s.health, protocol, model, exclude) {
      assert !NoneEligible(s.backends, s.health, protocol, model, exclude);
    }
  }

  lemma Regroup<T>(a: seq<T>, b: seq<T>, c: seq<T>)
    ensures (a + b) + c == a + (b + c)
  {
  }

  lemma EligibleOneMore(backends: seq<Backend>, b: Backend, health: HealthTable, protocol: string, model: string,
                        exclude: set<string>)
    ensures EligibleList(backends + [b], health, protocol, model, exclude) ==
      EligibleList(backends, health, protocol, model, exclude)
      + (if Eligible(b, health, protocol, model, exclude) then [b] else [])
  {
    assert (backends + [b])[..|backends|] == backends;
  }

  /** The eligible list keeps the configured order and repeats nothing that is not repeated there. */
  lemma {:induction false} EligibleInOrder(front: seq<Backend>, back: seq<Backend>, health: HealthTable,
                                           protocol: string, model: string, exclude: set<string>)
    ensures EligibleList(front + back, health, protocol, model, exclude) ==
      EligibleList(front, health, protocol, model, exclude) + EligibleList(back, health, protocol, model, exclude)
  {
    if back == [] {
      assert front + back == front;
    } else {
      var init, b := back[..|back| - 1], back[|back| - 1];
      EligibleInOrder(front, init, health, protocol, model, exclude);
      EligibleOneMore(front + init, b, health, protocol, model, exclude);
      EligibleOneMore(init, b, health, protocol, model, exclude);
      assert back == init + [b];
      Regroup(front, init, [b]);
      Regroup(EligibleList(front, health, protocol, model, exclude),
              EligibleList(init, health, protocol, model, exclude),
              if Eligible(b, health, protocol, model, exclude) then [b] else []);
    }
  }

  lemma OneEligible(b: Backend, health: HealthTable, protocol: string, model: string, exclude: set<string>)
    ensures EligibleList([b], health, protocol, model, exclude) ==
      if Eligible(b, health, protocol, model, exclude) then [b] else []
  {
    assert [b][..0] == [];
  }

  /** The rotation state after that choice. */
  function IndicesAfter(s: Surroundings, protocol: string, model: string, exclude: set<string>): Indices {
    Rotated(s.indices, protocol, |EligibleList(s.backends, s.health, protocol, model, exclude)|)
  }

  /** What an adapter call leaves: the status it recorded and the result it returned. */
  datatype Reply = Reply(status: int, result: string)

  predicate Retryable(status: int) {
    status == 502 || status == 503
  }

  class CallContext {
    var backendName: string
    var responseStatus: Option<int>
  }

  function DisplayName(b: Backend): string {
    if b.name != "" then b.name else b.baseUrl
  }

  function Urls(calls: seq<Backend>): set<string> {
    set b | b in calls :: b.baseUrl
  }

  const MAX_RETRIES := 1

  class Router {
    var indices: Indices

    constructor ()
      ensures indices == map[]
    {
      indices := map[];
    }

    method ResetBackendIndices()
      modifies `indices
      ensures indices == map[]
    {
      indices := map[];
    }

    method SelectBackend(backends: seq<Backend>, health: HealthTable, protocol: string, model: string,
                         exclude: set<string>)
        returns (choice: Option<Backend>)
      modifies `indices
      ensures var s := Surroundings(backends, health, old(indices));
        choice == Picked(s, protocol, model, exclude) && indices == IndicesAfter(s, protocol, model, exclude)
    {
      var eligible := [];
      var i := 0;
      while i < |backends|
        invariant 0 <= i <= |backends|
        invariant eligible == EligibleList(backends[..i], health, protocol, model, exclude)
      {
        var b := backends[i];
        assert backends[..i + 1][..i] == backends[..i];
        i := i + 1;
        if b.baseUrl in exclude || !b.enabled || protocol !in b.protocols || !Lookup(health, b.baseUrl).healthy {
          continue;
        }
        if model == "" {
          eligible := eligible + [b];
        } else if b.models == [] || "*" in b.models {
          eligible := eligible + [b];
        } else if model in b.models {
          eligible := eligible + [b];
        }
      }
      assert backends[..i] == backends;
      if eligible == [] {
        return None;
      }
      var stored := if protocol in indices then indices[protocol] else 0;
      var idx := stored % |eligible|;
      indices := indices[protocol := idx + 1];
      return Some(eligible[idx]);
    }

    /** The selection of one attempt, after other requests have moved the rotation. */
    method SelectIn(s: Surroundings, protocol: string, model: string, tried: set<string>)
        returns (choice: Option<Backend>)
      modifies `indices
      ensures choice == Picked(s, protocol, model, tried) && indices == IndicesAfter(s, protocol, model, tried)
    {
      indices := s.indices;
      choice := SelectBackend(s.backends, s.health, protocol, model, tried);
    }

    method CallAdapter(b: Backend, ghost calls: seq<Backend>, attempt: nat, adapter: (Backend, nat) -> Reply,
                       context: CallContext)
        returns (reply: Reply)
      requires attempt == |calls|
      modifies context
      ensures reply == adapter(b, attempt)
      ensures Reflects(calls + [b], adapter, Some(reply.result), context.responseStatus, context.backendName)
    {
      context.backendName := DisplayName(b);
      reply := adapter(b, attempt);
      context.responseStatus := Some(reply.status);
    }

    /** The retry loop. around[k] is what attempt k sees, and adapter answers the call of attempt k. */
    method ExecuteWithRetry(protocol: string, model: string, around: seq<Surroundings>,
                            adapter: (Backend, nat) -> Reply, context: CallContext)
        returns (result: Option<string>, ghost calls: seq<Backend>)
      requires |around| == MAX_RETRIES + 1
      modifies `indices, context
      ensures RetryRun(calls, around, adapter, protocol, model, indices)
      ensures Answered(calls, adapter, result, context.responseStatus, context.backendName,
                       old(context.responseStatus), old(context.backendName))
    {
      var tried: set<string> := {};
      result, calls := None, [];
      var attempt := 0;
      while attempt < MAX_RETRIES + 1
        invariant 0 <= attempt <= 2 && |calls| == attempt
        invariant Ongoing(calls, around, adapter, protocol, model, tried, indices)
        invariant Answered(calls, adapter, result, context.responseStatus, context.backendName,
                           old(context.responseStatus), old(context.backendName))
      {
        ghost var was := indices;
        var backend := SelectIn(around[attempt], protocol, model, tried);
        if backend == None {
          GivesUp(calls, around, adapter, protocol, model, tried, was, indices);
          return;
        }
        var reply := CallAdapter(backend.value, calls, attempt, adapter, context);
        OneMoreCall(calls, around, adapter, protocol, model, tried, was, backend.value, indices);
        tried := tried + {backend.value.baseUrl};
        result := Some(reply.result);
        calls := calls + [backend.value];
        if !Retryable(reply.status) {
          return;
        }
        attempt := attempt + 1;
      }
      AttemptsUsedUp(calls, around, adapter, protocol, model, tried, indices);
    }
  }

  /** The calls of a retry loop and the indices it leaves: each call but the last answered 502 or 503, and
      the loop ended because the attempts were used up, the last call answered otherwise, or nothing
      eligible was left. */
  ghost predicate RetryRun(calls: seq<Backend>, around: seq<Surroundings>, adapter: (Backend, nat) -> Reply,
                           protocol: string, model: string, indices: Indices)
    requires |around| == MAX_RETRIES + 1
  {
    && EachPicked(calls, around, protocol, model)
    && (calls != [] ==> AllRetryable(calls[..|calls| - 1], adapter))
    && (Concluded(calls, adapter) || Picked(around[|calls|], protocol, model, Urls(calls)) == None)
    && var k := LastAttempt(calls, adapter);
       indices == IndicesAfter(around[k], protocol, model, Urls(calls[..k]))
  }

  /** The loop between two attempts. */
  ghost predicate Ongoing(calls: seq<Backend>, around: seq<Surroundings>, adapter: (Backend, nat) -> Reply,
                          protocol: string, model: string, tried: set<string>, indices: Indices)
    requires |around| == MAX_RETRIES + 1
  {
    && tried == Urls(calls)
    && EachPicked(calls, around, protocol, model)
    && AllRetryable(calls, adapter)
    && (calls != [] ==>
        indices == IndicesAfter(around[|calls| - 1], protocol, model, Urls(calls[..|calls| - 1])))
  }

  lemma GivesUp(calls: seq<Backend>, around: seq<Surroundings>, adapter: (Backend, nat) -> Reply,
                protocol: string, model: string, tried: set<string>, before: Indices, after: Indices)
    requires |around| == MAX_RETRIES + 1 && |calls| < |around|
    requires Ongoing(calls, around, adapter, protocol, model, tried, before)
    requires Picked(around[|calls|], protocol, model, tried) == None
    requires after == IndicesAfter(around[|calls|], protocol, model, tried)
    ensures RetryRun(calls, around, adapter, protocol, model, after)
  {
    assert calls[..|calls|] == calls;
    assert !Concluded(calls, adapter);
    if calls != [] {
      AllRetryablePrefix(calls, adapter);
    }
  }

  lemma AttemptsUsedUp(calls: seq<Backend>, around: seq<Surroundings>, adapter: (Backend, nat) -> Reply,
                       protocol: string, model: string, tried: set<string>, indices: Indices)
    requires |around| == MAX_RETRIES + 1 == |calls|
    requires Ongoing(calls, around, adapter, protocol, model, tried, indices)
    ensures RetryRun(calls, around, adapter, protocol, model, indices)
  {
    AllRetryablePrefix(calls, adapter);
  }

  lemma OneMoreCall(calls: seq<Backend>, around: seq<Surroundings>, adapter: (Backend, nat) -> Reply,
                    protocol: string, model: string, tried: set<string>, before: Indices, b: Backend, after: Indices)
    requires |around| == MAX_RETRIES + 1 && |calls| < |around|
    requires Ongoing(calls, around, adapter, protocol, model, tried, before)
    requires Picked(around[|calls|], protocol, model, tried) == Some(b)
    requires after == IndicesAfter(around[|calls|], protocol, model, tried)
    ensures Retryable(adapter(b, |calls|).status) ==>
      Ongoing(calls + [b], around, adapter, protocol, model, tried + {b.baseUrl}, after)
    ensures !Retryable(adapter(b, |calls|).status) ==>
      RetryRun(calls + [b], around, adapter, protocol, model, after)
  {
    var longer := calls + [b];
    assert longer[..|longer| - 1] == calls && longer[|longer| - 1] == b;
    OneMorePick(calls, around, protocol, model, b);
    if Retryable(adapter(b, |calls|).status) {
      AllRetryableGrows(longer, adapter);
    } else {
      assert Concluded(longer, adapter) && LastAttempt(longer, adapter) == |calls|;
    }
  }

  /** The attempts are used up, or the last call's answer stands. */
  predicate Concluded(calls: seq<Backend>, adapter: (Backend, nat) -> Reply) {
    || |calls| >= MAX_RETRIES + 1
    || (calls != [] && !Retryable(adapter(calls[|calls| - 1], |calls| - 1).status))
  }

  /** The last attempt that selected: one past the last call if that selection found nothing. */
  function LastAttempt(calls: seq<Backend>, adapter: (Backend, nat) -> Reply): (k: nat)
    requires |calls| <= MAX_RETRIES + 1
    ensures k <= |calls| && k <= MAX_RETRIES
  {
    if Concluded(calls, adapter) then |calls| - 1 else |calls|
  }

  /** Each call went to the round-robin choice among the backends eligible when it was made and not
      tried before. */
  ghost predicate EachPicked(calls: seq<Backend>, around: seq<Surroundings>, protocol: string, model: string) {
    && |calls| <= |around|
    && forall k :: 0 <= k < |calls| ==> Picked(around[k], protocol, model, Urls(calls[..k])) == Some(calls[k])
  }

  /** The result and the context are those of the last call. */
  predicate Reflects(calls: seq<Backend>, adapter: (Backend, nat) -> Reply, result: Option<string>,
                     status: Option<int>, name: string)
    requires calls != []
  {
    var last := |calls| - 1;
    && result == Some(adapter(calls[last], last).result)
    && status == Some(adapter(calls[last], last).status)
    && name == if calls[last].name != "" then calls[last].name else calls[last].baseUrl
  }

  /** The same, and without a call there is no result and the context is as it was. */
  predicate Answered(calls: seq<Backend>, adapter: (Backend, nat) -> Reply, result: Option<string>,
                     status: Option<int>, name: string, status0: Option<int>, name0: string) {
    if calls == [] then result == None && status == status0 && name == name0
    else Reflects(calls, adapter, result, status, name)
  }

  predicate AllRetryable(calls: seq<Backend>, adapter: (Backend, nat) -> Reply) {
    forall k: nat :: k < |calls| ==> Retryable(adapter(calls[k], k).status)
  }

  lemma AllRetryablePrefix(calls: seq<Backend>, adapter: (Backend, nat) -> Reply)
    requires calls != [] && AllRetryable(calls, adapter)
    ensures AllRetryable(calls[..|calls| - 1], adapter)
    ensures Retryable(adapter(calls[|calls| - 1], |calls| - 1).status)
  {
  }

  lemma AllRetryableGrows(calls: seq<Backend>, adapter: (Backend, nat) -> Reply)
    requires calls != [] && AllRetryable(calls[..|calls| - 1], adapter)
    requires Retryable(adapter(calls[|calls| - 1], |calls| - 1).status)
    ensures AllRetryable(calls, adapter)
  {
    forall k: nat | k < |calls| - 1 ensures Retryable(adapter(calls[k], k).status) {
      assert calls[..|calls| - 1][k] == calls[k];
    }
  }

  lemma OneMorePick(calls: seq<Backend>, around: seq<Surroundings>, protocol: string, model: string, b: Backend)
    requires EachPicked(calls, around, protocol, model) && |calls| < |around|
    requires Picked(around[|calls|], protocol, model, Urls(calls)) == Some(b)
    ensures EachPicked(calls + [b], around, protocol, model)
    ensures Urls(calls + [b]) == Urls(calls) + {b.baseUrl}
  {
    UrlsGrow(calls, b);
    forall k | 0 <= k <= |calls| ensures (calls + [b])[..k] == calls[..k] {
    }
    assert calls[..|calls|] == calls;
  }

  lemma UrlsOfFew(calls: seq<Backend>)
    ensures Urls([]) == {}
    ensures |calls| >= 1 ==> Urls(calls[..1]) == {calls[0].baseUrl}
  {
    if |calls| >= 1 {
      assert calls[..1] == [] + [calls[0]];
      UrlsGrow([], calls[0]);
    }
  }

  /** At most two calls, each to a configured backend eligible at the time, to different URLs; a second one
      exactly when the first answered 502 or 503 and something else is eligible then; no call exactly when
      nothing was eligible at first; a single retryable answer stands only when nothing else was eligible. */
  lemma RetryProperties(calls: seq<Backend>, around: seq<Surroundings>, adapter: (Backend, nat) -> Reply,
                        protocol: string, model: string, indices: Indices)
    requires |around| == MAX_RETRIES + 1 && RetryRun(calls, around, adapter, protocol, model, indices)
    ensures |calls| <= 2
    ensures forall k :: 0 <= k < |calls| ==>
      calls[k] in around[k].backends && Eligible(calls[k], around[k].health, protocol, model, {})
    ensures |calls| == 2 ==> calls[0].baseUrl != calls[1].baseUrl
    ensures |calls| >= 1 ==>
      (|calls| == 2 <==> adapter(calls[0], 0).status in {502, 503}
                         && Picked(around[1], protocol, model, {calls[0].baseUrl}).Some?)
    ensures calls == [] <==> NoneEligible(around[0].backends, around[0].health, protocol, model, {})
    ensures |calls| == 1 && adapter(calls[0], 0).status in {502, 503} ==>
      NoneEligible(around[1].backends, around[1].health, protocol, model, {calls[0].baseUrl})
  {
    UrlsOfFew(calls);
    if calls != [] {
      assert calls[..0] == [];
      assert Picked(around[0], protocol, model, {}) == Some(calls[0]);
    }
    if |calls| == 1 {
      assert calls[..1] == calls;
    }
    if |calls| == 2 {
      assert Picked(around[1], protocol, model, Urls(calls[..1])) == Some(calls[1]);
      assert calls[..1][0] == calls[0];
    }
  }

  lemma UrlsGrow(calls: seq<Backend>, b: Backend)
    ensures Urls(calls + [b]) == Urls(calls) + {b.baseUrl}
  {
    assert forall c :: c in calls + [b] <==> c in calls || c == b;
    forall u | u in Urls(calls) + {b.baseUrl} ensures u in Urls(calls + [b]) {
      if u == b.baseUrl {
        assert b in calls + [b];
      }
    }
  }

  /** A selection that finds nothing leaves the rotation as it was; one that chooses moves its own protocol
      past the choice and no other protocol. */
  lemma OnlyAChoiceRotates(s: Surroundings, protocol: string, model: string, exclude: set<string>, other: string)
    ensures var choice, after := Picked(s, protocol, model, exclude), IndicesAfter(s, protocol, model, exclude);
      var eligible := EligibleList(s.backends, s.health, protocol, model, exclude);
      && (choice == None ==> after == s.indices)
      && (other != protocol ==> (other in after <==> other in s.indices))
      && (other != protocol && other in after ==> after[other] == s.indices[other])
      && (choice.Some? ==> protocol in after && 1 <= after[protocol] <= |eligible|
                           && eligible[after[protocol] - 1] == choice.value)
  {
  }

  lemma SmallRemainders(n: nat)
    requires n > 0
    ensures 0 % n == 0 && 1 % n == if n > 1 then 1 else 0
  {
  }

  /** After a reset the first selection takes the first eligible backend in configured order, and the next
      one the second, or the first again if there is no other. */
  lemma RotationStartsAtTheFirst(s: Surroundings, protocol: string, model: string, exclude: set<string>)
    requires s.indices == map[] && Picked(s, protocol, model, exclude).Some?
    ensures var eligible := EligibleList(s.backends, s.health, protocol, model, exclude);
      var next := s.(indices := IndicesAfter(s, protocol, model, exclude));
      && Picked(s, protocol, model, exclude) == Some(eligible[0])
      && Picked(next, protocol, model, exclude) == Some(if |eligible| > 1 then eligible[1] else eligible[0])
  {
    var n := |EligibleList(s.backends, s.health, protocol, model, exclude)|;
    SmallRemainders(n);
    assert Position(s.indices, protocol, n) == 0;
    var after := IndicesAfter(s, protocol, model, exclude);
    assert Stored(after, protocol) == 1;
    assert Position(after, protocol, n) == if n > 1 then 1 else 0;
  }

  // ----- Failover -----

  /** Passes every filter, with health told by the trace of probes: not all of the last probes, as many
      as the threshold and at least one, failed. */
  ghost predicate Available(b: Backend, threshold: int, probes: seq<Probe>, protocol: string, model: string,
                            exclude: set<string>)
  {
    && b.baseUrl !in exclude && b.enabled && protocol in b.protocols
    && (model == "" || b.models == [] || "*" in b.models || model in b.models)
    && !LastFailed(probes, b.baseUrl, if threshold < 1 then 1 else threshold)
  }

  /** Failover over all probe traces: the choice is always an available backend, and there is none
      exactly when no configured backend is available. */
  lemma Failover(backends: seq<Backend>, indices: Indices, threshold: int, probes: seq<Probe>,
                 protocol: string, model: string, exclude: set<string>)
    ensures var s := Surroundings(backends, MarkAll(map[], threshold, probes), indices);
      var choice := Picked(s, protocol, model, exclude);
      && (choice.Some? ==>
          choice.value in backends && Available(choice.value, threshold, probes, protocol, model, exclude))
      && (choice.None? <==> forall b :: b in backends ==> !Available(b, threshold, probes, protocol, model, exclude))
  {
    var health := MarkAll(map[], threshold, probes);
    forall b
      ensures Eligible(b, health, protocol, model, exclude)
        <==> Available(b, threshold, probes, protocol, model, exclude)
    {
      HealthyIff(threshold, probes, b.baseUrl);
    }
  }

  // ----- Fairness -----

  /** A selection: its protocol and how many backends were eligible for it. */
  datatype Selection = Selection(protocol: string, eligible: nat)

  function RotatedBy(indices: Indices, s: Selection): Indices {
    Rotated(indices, s.protocol, s.eligible)
  }

  function CountFor(selections: seq<Selection>, protocol: string): nat {
    if selections == [] then 0
    else (if selections[0].protocol == protocol then 1 else 0) + CountFor(selections[1..], protocol)
  }

  /** How many selections for protocol pick position p. */
  function Picks(indices: Indices, selections: seq<Selection>, protocol: string, p: nat): nat
    decreases |selections|
  {
    if selections == [] then 0
    else
      var s := selections[0];
      (if s.protocol == protocol && s.eligible > 0 && Position(indices, protocol, s.eligible) == p then 1 else 0)
      + Picks(RotatedBy(indices, s), selections[1..], protocol, p)
  }

  /** Steps from position pos forward to position p on a ring of n. */
  function Ahead(pos: nat, p: nat, n: nat): nat
    requires pos < n && p < n
  {
    if p >= pos then p - pos else p + n - pos
  }

  lemma NextPosition(k: nat, n: nat)
    requires n > 0
    ensures (k % n + 1) % n == if k % n == n - 1 then 0 else k % n + 1
  {
  }

  lemma AheadAfterStep(k: nat, p: nat, n: nat)
    requires p < n
    ensures Ahead((k % n + 1) % n, p, n) == if k % n == p then n - 1 else Ahead(k % n, p, n) - 1
  {
    NextPosition(k, n);
  }

  lemma OneMoreTurn(c: int, n: int, x: int)
    requires (c - 1) * n < x <= c * n
    ensures c * n < x + n <= (c + 1) * n
  {
  }

  /** The picks of p are the multiples of n that the distance leaves room for. */
  lemma {:induction false} PicksAreEvenlySpaced(indices: Indices, selections: seq<Selection>, protocol: string,
                                                n: nat, p: nat)
    requires p < n
    requires forall s :: s in selections && s.protocol == protocol ==> s.eligible == n
    ensures var c := Picks(indices, selections, protocol, p);
      var x := CountFor(selections, protocol) - Ahead(Position(indices, protocol, n), p, n);
      (c - 1) * n < x <= c * n
    decreases |selections|
  {
    if selections != [] {
      var s := selections[0];
      var later := RotatedBy(indices, s);
      PicksAreEvenlySpaced(later, selections[1..], protocol, n, p);
      if s.protocol == protocol {
        AheadAfterStep(Stored(indices, protocol), p, n);
        if Position(indices, protocol, n) == p {
          var c := Picks(later, selections[1..], protocol, p);
          var x := CountFor(selections[1..], protocol) - Ahead(Position(later, protocol, n), p, n);
          OneMoreTurn(c, n, x);
        }
      }
    }
  }

  lemma {:induction false} ProductAtLeast(x: int, n: int)
    requires x >= 1 && n > 0
    ensures x * n >= n
    decreases x
  {
    if x > 1 {
      ProductAtLeast(x - 1, n);
      assert x * n == (x - 1) * n + n;
    }
  }

  lemma ProductsInOrder(a: int, b: int, n: int)
    requires n > 0
    ensures a * n < b * n <==> a < b
  {
    assert b * n - a * n == (b - a) * n;
    if a < b {
      ProductAtLeast(b - a, n);
    } else if b < a {
      ProductAtLeast(a - b, n);
      assert (a - b) * n == a * n - b * n;
    }
  }

  lemma QuotientBetween(c: int, m: int, n: int)
    requires n > 0
    ensures m < (c + 1) * n ==> m / n <= c
    ensures c * n <= m ==> c <= m / n
  {
    var q := m / n;
    assert q * n + m % n == m;
    assert (q + 1) * n == q * n + n;
    ProductsInOrder(q, c + 1, n);
    ProductsInOrder(c, q + 1, n);
  }

  lemma FromSpacing(c: int, m: int, d: int, n: int)
    requires 0 <= d < n && (c - 1) * n < m - d <= c * n
    ensures m / n <= c <= (m + n - 1) / n
  {
    assert (c + 1) * n == c * n + n && (c - 1) * n == c * n - n;
    QuotientBetween(c, m, n);
    QuotientBetween(c, m + n - 1, n);
  }

  /** From any stored index, and however selections for other protocols interleave, m selections for a
      protocol over n eligible backends pick each position floor(m/n) or ceil(m/n) times. */
  lemma PositionsAreFair(indices: Indices, selections: seq<Selection>, protocol: string, n: nat, p: nat)
    requires p < n
    requires forall s :: s in selections && s.protocol == protocol ==> s.eligible == n
    ensures var m := CountFor(selections, protocol);
      m / n <= Picks(indices, selections, protocol, p) <= (m + n - 1) / n
  {
    PicksAreEvenlySpaced(indices, selections, protocol, n, p);
    FromSpacing(Picks(indices, selections, protocol, p), CountFor(selections, protocol),
                Ahead(Position(indices, protocol, n), p, n), n);
  }

  /** A call of _select_backend, with the configuration and health it sees. */
  datatype Request = Request(protocol: string, model: string, exclude: set<string>, backends: seq<Backend>,
                             health: HealthTable)
  {
    function Eligible(): seq<Backend> {
      EligibleList(backends, health, protocol, model, exclude)
    }

    function Choice(indices: Indices): Option<Backend> {
      Picked(Surroundings(backends, health, indices), protocol, model, exclude)
    }

    function After(indices: Indices): Indices {
      IndicesAfter(Surroundings(backends, health, indices), protocol, model, exclude)
    }
  }

  /** The number of requests for protocol, and how many of them are given b, in a run of requests. */
  function Asked(requests: seq<Request>, protocol: string): nat {
    if requests == [] then 0
    else (if requests[0].protocol == protocol then 1 else 0) + Asked(requests[1..], protocol)
  }

  function Given(indices: Indices, requests: seq<Request>, protocol: string, b: Backend): nat
    decreases |requests|
  {
    if requests == [] then 0
    else
      (if requests[0].protocol == protocol && requests[0].Choice(indices) == Some(b) then 1 else 0)
      + Given(requests[0].After(indices), requests[1..], protocol, b)
  }

  function SelectionsOf(requests: seq<Request>): seq<Selection> {
    if requests == [] then []
    else [Selection(requests[0].protocol, |requests[0].Eligible()|)] + SelectionsOf(requests[1..])
  }

  predicate SameEligible(requests: seq<Request>, protocol: string, eligible: seq<Backend>) {
    forall r :: r in requests && r.protocol == protocol ==> r.Eligible() == eligible
  }

  lemma ChoiceIsPosition(indices: Indices, r: Request, eligible: seq<Backend>, p: nat)
    requires r.Eligible() == eligible && p < |eligible|
    requires forall i, j :: 0 <= i < j < |eligible| ==> eligible[i] != eligible[j]
    ensures r.Choice(indices) == Some(eligible[p]) <==> Position(indices, r.protocol, |eligible|) == p
  {
  }

  lemma {:induction false} GivenIsPicked(indices: Indices, requests: seq<Request>, protocol: string,
                                         eligible: seq<Backend>, p: nat)
    requires SameEligible(requests, protocol, eligible) && p < |eligible|
    requires forall i, j :: 0 <= i < j < |eligible| ==> eligible[i] != eligible[j]
    ensures Given(indices, requests, protocol, eligible[p]) == Picks(indices, SelectionsOf(requests), protocol, p)
    ensures Asked(requests, protocol) == CountFor(SelectionsOf(requests), protocol)
    ensures forall s :: s in SelectionsOf(requests) && s.protocol == protocol ==> s.eligible == |eligible|
    decreases |requests|
  {
    if requests != [] {
      var r, rest := requests[0], requests[1..];
      var later := r.After(indices);
      assert SelectionsOf(requests)[1..] == SelectionsOf(rest);
      assert later == RotatedBy(indices, Selection(r.protocol, |r.Eligible()|));
      GivenIsPicked(later, rest, protocol, eligible, p);
      if r.protocol == protocol {
        ChoiceIsPosition(indices, r, eligible, p);
      }
    }
  }

  /** Round-robin fairness over a run of selections: while the eligible list of a protocol stays the same
      list of n different backends, m requests for it are given each of them floor(m/n) or ceil(m/n)
      times, from any stored indices and however requests for other protocols interleave. */
  lemma RoundRobinIsFair(indices: Indices, requests: seq<Request>, protocol: string, eligible: seq<Backend>, b: Backend)
    requires SameEligible(requests, protocol, eligible) && b in eligible
    requires forall i, j :: 0 <= i < j < |eligible| ==> eligible[i] != eligible[j]
    ensures var m, n := Asked(requests, protocol), |eligible|;
      m / n <= Given(indices, requests, protocol, b) <= (m + n - 1) / n
  {
    var p :| 0 <= p < |eligible| && eligible[p] == b;
    GivenIsPicked(indices, requests, protocol, eligible, p);
    PositionsAreFair(indices, SelectionsOf(requests), protocol, |eligible|, p);
  }
}
