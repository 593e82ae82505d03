/** The consecutive-failure health machine. */
module HealthChecking {

  /** One backend's health state; the checker updates it in place. */
  class BackendHealth {
    var healthy: bool
    var lastCheck: real
    var failCount: nat
    var lastError: string

    constructor ()
      ensures View() == FRESH
    {
      healthy, lastCheck, failCount, lastError := true, 0.0, 0, "";
    }

    /** The field updates that marking makes. */
    method Update(p: Probe, threshold: int)
      modifies this
      ensures View() == Marked(old(View()), threshold, p)
    {
      lastCheck := p.now;
      if p.success {
        healthy := true;
        failCount := 0;
        lastError := "";
      } else {
        failCount := failCount + 1;
        lastError := p.error;
        if failCount >= threshold {
          healthy := false;
        }
      }
    }

    function View(): Health
      reads this
    {
      Health(healthy, lastCheck, failCount, lastError)
    }
  }

  datatype Health = Health(healthy: bool, lastCheck: real, failCount: nat, lastError: string)

  const FRESH := Health(true, 0.0, 0, "")

  /** One probe of a URL: whether it succeeded, at what time, and the error text if it did not. */
  datatype Probe = Probe(url: string, success: bool, now: real, error: string)

  type HealthTable = map<string, Health>

  function Lookup(table: HealthTable, url: string): Health {
    if url in table then table[url] else FRESH
  }

  function Marked(h: Health, threshold: int, p: Probe): Health {
    if p.success then Health(true, p.now, 0, "")
    else Health(h.healthy && h.failCount + 1 < threshold, p.now, h.failCount + 1, p.error)
  }

  function MarkIn(table: HealthTable, threshold: int, p: Probe): HealthTable {
    table[p.url := Marked(Lookup(table, p.url), threshold, p)]
  }

  function MarkAll(table: HealthTable, threshold: int, probes: seq<Probe>): HealthTable {
    if probes == [] then table
    else MarkIn(MarkAll(table, threshold, probes[..|probes| - 1]), threshold, probes[|probes| - 1])
  }

  /** A configured backend, as far as probing and routing read it. */
  datatype Backend = Backend(
    name: string,
    baseUrl: string,
    protocols: seq<string>,
    models: seq<string>,
    enabled: bool)

  /** How a GET of the health page ends. */
  datatype Response = Status(code: int) | Raised(error: string)

  function ProbeOf(b: Backend, r: Response, now: real): Probe {
    match r
    case Status(code) => Probe(b.baseUrl, code < 500, now, "")
    case Raised(error) => Probe(b.baseUrl, false, now, error)
  }

  /** The probes that the first n backends record: one per enabled backend, in order. */
  function Probes(backends: seq<Backend>, responses: seq<Response>, times: seq<real>, n: nat): seq<Probe>
    requires n <= |backends| == |responses| == |times|
  {
    if n == 0 then []
    else
      var before, b := Probes(backends, responses, times, n - 1), backends[n - 1];
      if b.enabled then before + [ProbeOf(b, responses[n - 1], times[n - 1])] else before
  }

  /** The probes of a whole round. */
  function Round(backends: seq<Backend>, responses: seq<Response>, times: seq<real>): seq<Probe>
    requires |backends| == |responses| == |times|
  {
    Probes(backends, responses, times, |backends|)
  }

  lemma MarkAllOneMore(table: HealthTable, threshold: int, probes: seq<Probe>, p: Probe)
    ensures MarkAll(table, threshold, probes + [p]) == MarkIn(MarkAll(table, threshold, probes), threshold, p)
  {
    assert (probes + [p])[..|probes|] == probes;
  }

  /** The table after the first i backends of a round. */
  function AfterBackends(table: HealthTable, threshold: int, backends: seq<Backend>, responses: seq<Response>,
                         times: seq<real>, i: nat): HealthTable
    requires i <= |backends| == |responses| == |times|
  {
    if i == 0 then table
    else
      var before := AfterBackends(table, threshold, backends, responses, times, i - 1);
      if backends[i - 1].enabled
      then MarkIn(before, threshold, ProbeOf(backends[i - 1], responses[i - 1], times[i - 1]))
      else before
  }

  lemma {:induction false} ProbesMark(table: HealthTable, threshold: int, backends: seq<Backend>,
                                      responses: seq<Response>, times: seq<real>, i: nat)
    requires i <= |backends| == |responses| == |times|
    ensures AfterBackends(table, threshold, backends, responses, times, i)
      == MarkAll(table, threshold, Probes(backends, responses, times, i))
  {
    if i > 0 {
      ProbesMark(table, threshold, backends, responses, times, i - 1);
      var p := ProbeOf(backends[i - 1], responses[i - 1], times[i - 1]);
      MarkAllOneMore(table, threshold, Probes(backends, responses, times, i - 1), p);
    }
  }

  class HealthChecker {
    const failThreshold: int
    var health: map<string, BackendHealth>

    ghost predicate Valid()
      reads this
    {
      forall u, v :: u in health && v in health && u != v ==> health[u] != health[v]
    }

    ghost function View(): HealthTable
      reads this, health.Values
    {
      map url | url in health :: health[url].View()
    }

    constructor (failThreshold: int)
      ensures Valid() && View() == map[] && this.failThreshold == failThreshold
      ensures health == map[]
    {
      this.failThreshold := failThreshold;
      health := map[];
    }

    lemma OneChanged(before: HealthTable, url: string)
      requires Valid() && health.Keys == before.Keys + {url}
      requires forall v :: v in health && v != url ==> health[v].View() == before[v]
      ensures View() == before[url := health[url].View()]
    {
    }

    /** dict.setdefault with a new BackendHealth. */
    method SetDefault(url: string) returns (h: BackendHealth)
      requires Valid()
      modifies `health
      ensures Valid() && fresh(health.Values - old(health.Values))
      ensures url in health && h == health[url]
      ensures View() == old(View())[url := Lookup(old(View()), url)]
      ensures h.View() == Lookup(old(View()), url)
    {
      if url !in health {
        ghost var before := View();
        h := new BackendHealth();
        health := health[url := h];
        assert forall v :: v in health && v != url ==> v in old(health) && health[v] == old(health)[v];
        OneChanged(before, url);
      } else {
        h := health[url];
      }
    }

    method Mark(p: Probe)
      requires Valid()
      modifies this, health.Values
      ensures Valid() && fresh(health.Values - old(health.Values))
      ensures View() == MarkIn(old(View()), failThreshold, p)
    {
      var h := SetDefault(p.url);
      ghost var table := View();
      h.Update(p, failThreshold);
      assert forall v :: v in health && v != p.url ==> health[v] != h && health[v].View() == table[v];
      OneChanged(table, p.url);
    }

    method CheckAll(backends: seq<Backend>, responses: seq<Response>, times: seq<real>)
      requires Valid() && |backends| == |responses| == |times|
      modifies this, health.Values
      ensures Valid() && fresh(health.Values - old(health.Values))
      ensures View() == MarkAll(old(View()), failThreshold, Round(backends, responses, times))
    {
      ghost var before := View();
      var i := 0;
      while i < |backends|
        invariant 0 <= i <= |backends|
        invariant Valid() && fresh(health.Values - old(health.Values))
        invariant View() == AfterBackends(before, failThreshold, backends, responses, times, i)
      {
        if backends[i].enabled {
          Mark(ProbeOf(backends[i], responses[i], times[i]));
        }
        i := i + 1;
      }
      ProbesMark(before, failThreshold, backends, responses, times, |backends|);
    }

    method IsHealthy(url: string) returns (healthy: bool)
      requires Valid()
      ensures healthy == Lookup(View(), url).healthy
    {
      if url in health {
        healthy := health[url].healthy;
      } else {
        healthy := true;
      }
    }
  }

  // ----- What a trace of probes means -----

  /** The number of failures of url since its last success, or since the start. */
  function TrailingFailures(probes: seq<Probe>, url: string): nat {
    if probes == [] then 0
    else
      var last, before := probes[|probes| - 1], probes[..|probes| - 1];
      if last.url != url then TrailingFailures(before, url)
      else if last.success then 0
      else TrailingFailures(before, url) + 1
  }

  function Of(probes: seq<Probe>, url: string): seq<Probe> {
    if probes == [] then []
    else
      var before := Of(probes[..|probes| - 1], url);
      if probes[|probes| - 1].url == url then before + [probes[|probes| - 1]] else before
  }

  /** The last n probes of url, all of them failures. */
  predicate LastFailed(probes: seq<Probe>, url: string, n: nat) {
    var own := Of(probes, url);
    n <= |own| && forall k :: |own| - n <= k < |own| ==> !own[k].success
  }

  lemma {:induction false} TrailingFailuresAreLast(probes: seq<Probe>, url: string, n: nat)
    ensures TrailingFailures(probes, url) >= n <==> LastFailed(probes, url, n)
  {
    if probes != [] {
      var last, before := probes[|probes| - 1], probes[..|probes| - 1];
      if last.url != url {
        TrailingFailuresAreLast(before, url, n);
      } else if n > 0 {
        TrailingFailuresAreLast(before, url, n - 1);
        var own, earlier := Of(probes, url), Of(before, url);
        assert own == earlier + [last];
        if LastFailed(probes, url, n) {
          assert !own[|own| - 1].success;
          assert forall k :: |earlier| - (n - 1) <= k < |earlier| ==> own[k] == earlier[k];
        }
      }
    }
  }

  lemma {:induction false} CountersFollowTheTrace(threshold: int, probes: seq<Probe>, url: string)
    ensures var h := Lookup(MarkAll(map[], threshold, probes), url);
      && h.failCount == TrailingFailures(probes, url)
      && (h.healthy <==> h.failCount == 0 || h.failCount < threshold)
  {
    if probes != [] {
      CountersFollowTheTrace(threshold, probes[..|probes| - 1], url);
    }
  }

  /** After any trace a URL is healthy exactly when its trailing run of failures is shorter than the
      threshold, or empty: with a threshold below one the first failure is enough. Other URLs do not matter. */
  lemma HealthyIff(threshold: int, probes: seq<Probe>, url: string)
    ensures Lookup(MarkAll(map[], threshold, probes), url).healthy
      <==> !LastFailed(probes, url, if threshold < 1 then 1 else threshold)
  {
    CountersFollowTheTrace(threshold, probes, url);
    TrailingFailuresAreLast(probes, url, if threshold < 1 then 1 else threshold);
  }

  /** A backend's record depends on its own probes only, whatever the table was. */
  lemma {:induction false} Independent(table: HealthTable, threshold: int, probes: seq<Probe>, url: string)
    ensures Lookup(MarkAll(table, threshold, probes), url) == Lookup(MarkAll(table, threshold, Of(probes, url)), url)
  {
    if probes != [] {
      var last, before := probes[|probes| - 1], probes[..|probes| - 1];
      Independent(table, threshold, before, url);
      if last.url == url {
        assert (Of(before, url) + [last])[..|Of(before, url)|] == Of(before, url);
      }
    }
  }

  /** Every field of a URL's record, from the trace alone. */
  lemma {:induction false} RecordOfTrace(threshold: int, probes: seq<Probe>, url: string)
    ensures var own, h := Of(probes, url), Lookup(MarkAll(map[], threshold, probes), url);
      && h.healthy == !LastFailed(probes, url, if threshold < 1 then 1 else threshold)
      && h.failCount == TrailingFailures(probes, url)
      && (own == [] ==> h.lastCheck == 0.0 && h.lastError == "")
      && (own != [] ==>
          var last := own[|own| - 1];
          h.lastCheck == last.now && h.lastError == if last.success then "" else last.error)
  {
    HealthyIff(threshold, probes, url);
    CountersFollowTheTrace(threshold, probes, url);
    if probes != [] && probes[|probes| - 1].url != url {
      RecordOfTrace(threshold, probes[..|probes| - 1], url);
    }
  }

  // ----- What rounds of responses mean -----

  /** Raised, or answered with a status of 500 or more. */
  predicate Fails(r: Response) {
    match r
    case Status(code) => code >= 500
    case Raised(_) => true
  }

  /** Backend i is enabled and no other enabled one has its URL. */
  predicate Alone(backends: seq<Backend>, i: nat)
    requires i < |backends|
  {
    && backends[i].enabled
    && forall j :: 0 <= j < |backends| && j != i && backends[j].enabled ==> backends[j].baseUrl != backends[i].baseUrl
  }

  lemma {:induction false} OfConcat(a: seq<Probe>, b: seq<Probe>, url: string)
    ensures Of(a + b, url) == Of(a, url) + Of(b, url)
    decreases b
  {
    if b == [] {
      assert a + b == a;
    } else {
      var n := |b| - 1;
      assert (a + b)[..|a + b| - 1] == a + b[..n] && (a + b)[|a + b| - 1] == b[n];
      OfConcat(a, b[..n], url);
    }
  }

  lemma OneProbe(p: Probe, url: string)
    ensures Of([p], url) == if p.url == url then [p] else []
  {
    assert [p][..0] == [];
  }

  lemma OneMoreBackend(backends: seq<Backend>, responses: seq<Response>, times: seq<real>, n: nat, url: string)
    requires |backends| == |responses| == |times| && n < |backends|
    ensures var before := Of(Probes(backends, responses, times, n), url);
      Of(Probes(backends, responses, times, n + 1), url) ==
        if backends[n].enabled && backends[n].baseUrl == url
        then before + [ProbeOf(backends[n], responses[n], times[n])]
        else before
  {
    if backends[n].enabled {
      var p := ProbeOf(backends[n], responses[n], times[n]);
      OfConcat(Probes(backends, responses, times, n), [p], url);
      OneProbe(p, url);
    }
  }

  lemma {:induction false} NoProbeBetween(backends: seq<Backend>, responses: seq<Response>, times: seq<real>,
                                          url: string, from: nat, to: nat)
    requires from <= to <= |backends| == |responses| == |times|
    requires forall j :: from <= j < to && backends[j].enabled ==> backends[j].baseUrl != url
    ensures Of(Probes(backends, responses, times, to), url) == Of(Probes(backends, responses, times, from), url)
  {
    if from < to {
      NoProbeBetween(backends, responses, times, url, from, to - 1);
      OneMoreBackend(backends, responses, times, to - 1, url);
    }
  }

  lemma OwnProbeOfRound(backends: seq<Backend>, responses: seq<Response>, times: seq<real>, i: nat)
    requires |backends| == |responses| == |times| && i < |backends| && Alone(backends, i)
    ensures Of(Round(backends, responses, times), backends[i].baseUrl) == [ProbeOf(backends[i], responses[i], times[i])]
  {
    var url := backends[i].baseUrl;
    NoProbeBetween(backends, responses, times, url, 0, i);
    OneMoreBackend(backends, responses, times, i, url);
    NoProbeBetween(backends, responses, times, url, i + 1, |backends|);
  }

  lemma MarkOne(table: HealthTable, threshold: int, p: Probe)
    ensures MarkAll(table, threshold, [p]) == MarkIn(table, threshold, p)
  {
    assert [p][..0] == [];
  }

  /** What one round does to the record of an enabled backend, told by its response: below 500 it is healthy
      with no failures, and otherwise it has one failure more and is unhealthy from the threshold on. */
  lemma RoundTells(table: HealthTable, threshold: int, backends: seq<Backend>, responses: seq<Response>,
                   times: seq<real>, i: nat)
    requires |backends| == |responses| == |times| && i < |backends| && Alone(backends, i)
    ensures var before := Lookup(table, backends[i].baseUrl);
      var after := Lookup(MarkAll(table, threshold, Round(backends, responses, times)), backends[i].baseUrl);
      match responses[i]
      case Status(code) =>
        if code < 500 then after == Health(true, times[i], 0, "")
        else after == Health(before.healthy && before.failCount + 1 < threshold, times[i], before.failCount + 1, "")
      case Raised(error) =>
        after == Health(before.healthy && before.failCount + 1 < threshold, times[i], before.failCount + 1, error)
  {
    OwnProbeOfRound(backends, responses, times, i);
    Independent(table, threshold, Round(backends, responses, times), backends[i].baseUrl);
    MarkOne(table, threshold, ProbeOf(backends[i], responses[i], times[i]));
  }

  /** A round leaves the record of a URL that no enabled backend has. */
  lemma RoundSkips(table: HealthTable, threshold: int, backends: seq<Backend>, responses: seq<Response>,
                   times: seq<real>, url: string)
    requires |backends| == |responses| == |times|
    requires forall j :: 0 <= j < |backends| && backends[j].enabled ==> backends[j].baseUrl != url
    ensures Lookup(MarkAll(table, threshold, Round(backends, responses, times)), url) == Lookup(table, url)
  {
    NoProbeBetween(backends, responses, times, url, 0, |backends|);
    Independent(table, threshold, Round(backends, responses, times), url);
  }

  /** One round's responses and clock readings, one of each per configured backend. */
  datatype Answers = Answers(responses: seq<Response>, times: seq<real>)

  predicate Fit(backends: seq<Backend>, rounds: seq<Answers>) {
    forall k :: 0 <= k < |rounds| ==> |rounds[k].responses| == |rounds[k].times| == |backends|
  }

  /** The table of a new checker after some rounds. */
  function AfterRounds(threshold: int, backends: seq<Backend>, rounds: seq<Answers>): HealthTable
    requires Fit(backends, rounds)
  {
    if rounds == [] then map[]
    else
      var last := rounds[|rounds| - 1];
      MarkAll(AfterRounds(threshold, backends, rounds[..|rounds| - 1]), threshold,
              Round(backends, last.responses, last.times))
  }

  /** The number of rounds at the end in which backend i failed. */
  function FailedRounds(rounds: seq<Answers>, i: nat): nat
    requires forall k :: 0 <= k < |rounds| ==> i < |rounds[k].responses|
  {
    if rounds == [] || !Fails(rounds[|rounds| - 1].responses[i]) then 0
    else FailedRounds(rounds[..|rounds| - 1], i) + 1
  }

  lemma {:induction false} FailedRoundsAreLast(rounds: seq<Answers>, i: nat, n: nat)
    requires forall k :: 0 <= k < |rounds| ==> i < |rounds[k].responses|
    ensures FailedRounds(rounds, i) >= n <==>
      n <= |rounds| && forall k :: |rounds| - n <= k < |rounds| ==> Fails(rounds[k].responses[i])
  {
    if rounds != [] && n > 0 {
      var before := rounds[..|rounds| - 1];
      FailedRoundsAreLast(before, i, n - 1);
      assert forall k :: 0 <= k < |before| ==> before[k] == rounds[k];
    }
  }

  lemma {:induction false} CountersFollowTheRounds(threshold: int, backends: seq<Backend>, rounds: seq<Answers>, i: nat)
    requires Fit(backends, rounds) && i < |backends| && Alone(backends, i)
    ensures var h := Lookup(AfterRounds(threshold, backends, rounds), backends[i].baseUrl);
      && h.failCount == FailedRounds(rounds, i)
      && (h.healthy <==> h.failCount == 0 || h.failCount < threshold)
  {
    if rounds != [] {
      var before, last := rounds[..|rounds| - 1], rounds[|rounds| - 1];
      CountersFollowTheRounds(threshold, backends, before, i);
      RoundTells(AfterRounds(threshold, backends, before), threshold, backends, last.responses, last.times, i);
    }
  }

  /** After any rounds an enabled backend is healthy exactly when not all of its last responses, as many as
      the threshold and at least one, raised or had a status of 500 or more. A 404 keeps it healthy. */
  lemma HealthyByResponses(threshold: int, backends: seq<Backend>, rounds: seq<Answers>, i: nat)
    requires Fit(backends, rounds) && i < |backends| && Alone(backends, i)
    ensures var n := if threshold < 1 then 1 else threshold;
      Lookup(AfterRounds(threshold, backends, rounds), backends[i].baseUrl).healthy <==>
      !(n <= |rounds| && forall k :: |rounds| - n <= k < |rounds| ==>
          var r := rounds[k].responses[i]; r.Raised? || r.code >= 500)
  {
    CountersFollowTheRounds(threshold, backends, rounds, i);
    FailedRoundsAreLast(rounds, i, if threshold < 1 then 1 else threshold);
  }
}
