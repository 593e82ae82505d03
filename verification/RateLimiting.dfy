/** The sliding-window rate limiter, and what its answers say about the whole history of calls. */
module RateLimiting {
  import opened FiniteSets

  const WINDOW := 60.0
  const CLEANUP_INTERVAL := 300.0

  // ----- The limiter's own steps -----

  datatype LimiterState = LimiterState(windows: map<string, seq<real>>, lastCleanup: real)

  function Window(windows: map<string, seq<real>>, user: string): seq<real> {
    if user in windows then windows[user] else []
  }

  /** What popping expired entries off the front leaves. */
  function Prune(w: seq<real>, cutoff: real): seq<real> {
    if w != [] && w[0] < cutoff then Prune(w[1..], cutoff) else w
  }

  predicate Stale(w: seq<real>, cutoff: real) {
    w == [] || w[|w| - 1] < cutoff
  }

  function Purge(windows: map<string, seq<real>>, cutoff: real): map<string, seq<real>> {
    map user | user in windows && !Stale(windows[user], cutoff) :: windows[user]
  }

  /** The append, and the periodic purge that may follow it. */
  function Appended(st: LimiterState, user: string, w: seq<real>, now: real): LimiterState {
    var windows := st.windows[user := w + [now]];
    if now - st.lastCleanup > CLEANUP_INTERVAL
    then LimiterState(Purge(windows, now - WINDOW), now)
    else LimiterState(windows, st.lastCleanup)
  }

  function AfterCheck(st: LimiterState, user: string, limit: int, now: real): (LimiterState, bool) {
    if limit <= 0 then (st, true) else
    var w := Prune(Window(st.windows, user), now - WINDOW);
    if |w| >= limit
    then (LimiterState(st.windows[user := w], st.lastCleanup), false)
    else (Appended(st, user, w, now), true)
  }

  class RateLimiter {
    var windows: map<string, seq<real>>
    var lastCleanup: real

    ghost function View(): LimiterState
      reads this
    {
      LimiterState(windows, lastCleanup)
    }

    constructor ()
      ensures View() == LimiterState(map[], 0.0)
    {
      windows := map[];
      lastCleanup := 0.0;
    }

    method Check(user: string, limit: int, now: real) returns (allowed: bool)
      modifies this
      ensures (View(), allowed) == AfterCheck(old(View()), user, limit, now)
    {
      if limit <= 0 {
        return true;
      }
      var cutoff := now - WINDOW;
      PruneExpired(user, cutoff);
      if |windows[user]| >= limit {
        return false;
      }
      windows := windows[user := windows[user] + [now]];
      assert windows == old(windows)[user := Prune(Window(old(windows), user), cutoff) + [now]];
      if now - lastCleanup > CLEANUP_INTERVAL {
        lastCleanup := now;
        PurgeStale(cutoff);
      }
      return true;
    }

    /** The defaultdict lookup and the popleft loop. */
    method PruneExpired(user: string, cutoff: real)
      modifies `windows
      ensures windows == old(windows)[user := Prune(Window(old(windows), user), cutoff)]
    {
      if user !in windows {
        windows := windows[user := []];
      }
      while windows[user] != [] && windows[user][0] < cutoff
        invariant user in windows
        invariant windows == old(windows)[user := windows[user]]
        invariant Prune(windows[user], cutoff) == Prune(Window(old(windows), user), cutoff)
        decreases |Window(windows, user)|
      {
        windows := windows[user := windows[user][1..]];
      }
    }

    /** Deletes every window whose newest entry has expired. */
    method PurgeStale(cutoff: real)
      modifies `windows
      ensures windows == Purge(old(windows), cutoff)
    {
      var stale := set user | user in windows && Stale(windows[user], cutoff);
      while stale != {}
        invariant forall user :: user in stale ==> user in windows && Stale(windows[user], cutoff)
        invariant windows.Keys <= old(windows).Keys
        invariant forall user :: user in windows ==> windows[user] == old(windows)[user]
        invariant forall user ::
          user in old(windows) && !(user in windows && user !in stale) ==> Stale(old(windows)[user], cutoff)
        invariant forall user :: user in windows && user !in stale ==> !Stale(windows[user], cutoff)
        decreases stale
      {
        var user :| user in stale;
        windows := windows - {user};
        stale := stale - {user};
      }
    }

    method Reset(user: string)
      modifies `windows
      ensures windows == old(windows) - {user}
    {
      windows := windows - {user};
    }
  }

  // ----- Runs -----

  datatype Call = Check(user: string, limit: int, now: real) | Reset(user: string)

  function LimiterStep(st: LimiterState, c: Call): LimiterState {
    match c
    case Check(user, limit, now) => AfterCheck(st, user, limit, now).0
    case Reset(user) => st.(windows := st.windows - {user})
  }

  /** The state of a new limiter after a run. */
  function StateAfter(calls: seq<Call>): LimiterState {
    if calls == [] then LimiterState(map[], 0.0) else LimiterStep(StateAfter(calls[..|calls| - 1]), calls[|calls| - 1])
  }

  function WindowAfter(calls: seq<Call>, user: string): seq<real> {
    Window(StateAfter(calls).windows, user)
  }

  predicate ReadsClock(c: Call) {
    c.Check? && c.limit > 0
  }

  /** What the clock showed to the calls that read it, in order. It may go back. */
  function Readings(calls: seq<Call>): seq<real> {
    if calls == [] then [] else
    var c := calls[|calls| - 1];
    Readings(calls[..|calls| - 1]) + (if ReadsClock(c) then [c.now] else [])
  }

  /** The limiter's answer to c after a run. */
  predicate Accepts(calls: seq<Call>, c: Call)
    requires c.Check?
  {
    AfterCheck(StateAfter(calls), c.user, c.limit, c.now).1
  }

  /** The limiter accepted the call at i under a positive limit, and its user has not been reset since. */
  predicate CountsAgainst(calls: seq<Call>, i: nat, user: string)
    requires i < |calls|
  {
    && ReadsClock(calls[i]) && calls[i].user == user
    && Accepts(calls[..i], calls[i])
    && forall k :: i < k < |calls| ==> calls[k] != Reset(user)
  }

  /** Positions of the user's accepted positive-limit calls since reset with time at least cutoff. */
  function RecentCalls(calls: seq<Call>, user: string, cutoff: real): set<nat> {
    set i: nat | i < |calls| && CountsAgainst(calls, i, user) && calls[i].now >= cutoff
  }

  /** Positions of the user's accepted positive-limit calls since reset from position first on. */
  function CallsSince(calls: seq<Call>, user: string, first: nat): set<nat> {
    set i: nat | first <= i < |calls| && CountsAgainst(calls, i, user)
  }

  predicate Granted(calls: seq<Call>, c: Call, user: string) {
    ReadsClock(c) && c.user == user && Accepts(calls, c)
  }

  lemma EarlierCallStillCounts(calls: seq<Call>, c: Call, i: nat, user: string)
    requires i < |calls|
    ensures CountsAgainst(calls + [c], i, user) <==> CountsAgainst(calls, i, user) && c != Reset(user)
  {
    var longer := calls + [c];
    assert longer[..i] == calls[..i] && longer[i] == calls[i] && longer[|calls|] == c;
    if forall k :: i < k < |longer| ==> longer[k] != Reset(user) {
      forall k | i < k < |calls| ensures calls[k] != Reset(user) {
        assert longer[k] == calls[k];
      }
    }
  }

  lemma NewCallCounts(calls: seq<Call>, c: Call, user: string)
    ensures CountsAgainst(calls + [c], |calls|, user) <==> Granted(calls, c, user)
  {
    assert (calls + [c])[..|calls|] == calls;
  }

  /** What the last call of a run adds to the calls that count, or takes away. */
  function OneMore(calls: seq<Call>, c: Call, user: string, counted: set<nat>, more: bool): set<nat> {
    if c == Reset(user) then {} else if more then counted + {|calls|} else counted
  }

  lemma OneMoreCounts(calls: seq<Call>, c: Call, user: string, counted: set<nat>, more: bool)
    requires |calls| !in counted
    ensures |OneMore(calls, c, user, counted, more)| ==
            if c == Reset(user) then 0 else |counted| + (if more then 1 else 0)
  {
  }

  lemma RecentCallsOneMore(calls: seq<Call>, c: Call, user: string, cutoff: real)
    ensures |RecentCalls(calls + [c], user, cutoff)| ==
            if c == Reset(user) then 0
            else |RecentCalls(calls, user, cutoff)| + (if Granted(calls, c, user) && c.now >= cutoff then 1 else 0)
  {
    var counted, more := RecentCalls(calls, user, cutoff), Granted(calls, c, user) && c.now >= cutoff;
    NewCallCounts(calls, c, user);
    forall i: nat ensures i in RecentCalls(calls + [c], user, cutoff) <==> i in OneMore(calls, c, user, counted, more) {
      if i < |calls| {
        EarlierCallStillCounts(calls, c, i, user);
        assert (calls + [c])[i] == calls[i];
      }
    }
    assert RecentCalls(calls + [c], user, cutoff) == OneMore(calls, c, user, counted, more);
    OneMoreCounts(calls, c, user, counted, more);
  }

  lemma CallsSinceOneMore(calls: seq<Call>, c: Call, user: string, first: nat)
    requires first <= |calls|
    ensures |CallsSince(calls + [c], user, first)| ==
            if c == Reset(user) then 0
            else |CallsSince(calls, user, first)| + (if Granted(calls, c, user) then 1 else 0)
  {
    var counted, more := CallsSince(calls, user, first), Granted(calls, c, user);
    forall i: nat ensures i in CallsSince(calls + [c], user, first) <==> i in OneMore(calls, c, user, counted, more) {
      if i < |calls| {
        EarlierCallStillCounts(calls, c, i, user);
      } else if i == |calls| {
        NewCallCounts(calls, c, user);
      }
    }
    assert CallsSince(calls + [c], user, first) == OneMore(calls, c, user, counted, more);
    OneMoreCounts(calls, c, user, counted, more);
  }

  /** What one call does to one user's window: the call's own user is pruned and perhaps appended to,
      and any other window is kept or, when its newest entry has expired, deleted. */
  lemma WindowStep(st: LimiterState, c: Call, user: string)
    ensures
      var w, after := Window(st.windows, user), Window(LimiterStep(st, c).windows, user);
      if c == Reset(user) then after == []
      else if !ReadsClock(c) then after == w
      else if c.user != user then after == w || (after == [] && Stale(w, c.now - WINDOW))
      else
        var pruned := Prune(w, c.now - WINDOW);
        after == if |pruned| < c.limit then pruned + [c.now] else pruned
  {
  }

  lemma OneMoreCall(calls: seq<Call>, c: Call)
    ensures StateAfter(calls + [c]) == LimiterStep(StateAfter(calls), c)
    ensures Readings(calls + [c]) == if ReadsClock(c) then Readings(calls) + [c.now] else Readings(calls)
  {
    assert (calls + [c])[..|calls|] == calls;
  }

  lemma LastCall(calls: seq<Call>)
    requires calls != []
    ensures calls[..|calls| - 1] + [calls[|calls| - 1]] == calls
  {
  }

  // ----- The window against the whole history -----

  /** When a call at time now finds in every window what it would find in the whole history: a reading
      that has expired has only expired ones before it, and one that was once more than 60 seconds
      behind a later reading has expired. A clock that never goes back always meets this. */
  predicate Settled(times: seq<real>, now: real) {
    forall i, j :: 0 <= i < j < |times| && (times[j] < now - 60.0 || times[i] < times[j] - 60.0)
      ==> times[i] < now - 60.0
  }

  predicate NeverGoesBack(times: seq<real>) {
    forall i, j :: 0 <= i < j < |times| ==> times[i] <= times[j]
  }

  /** Fewer than limit of the user's accepted positive-limit calls since reset have time at least
      now - 60. Nothing is ever pruned or purged from this count. */
  predicate Allowed(calls: seq<Call>, c: Call)
    requires c.Check?
  {
    c.limit <= 0 || |RecentCalls(calls, c.user, c.now - 60.0)| < c.limit
  }

  function CountFrom(w: seq<real>, cutoff: real): nat {
    if w == [] then 0 else CountFrom(w[1..], cutoff) + (if w[0] >= cutoff then 1 else 0)
  }

  predicate ExpiredFirst(w: seq<real>, cutoff: real) {
    forall i, j :: 0 <= i < j < |w| && w[j] < cutoff ==> w[i] < cutoff
  }

  lemma {:induction false} AllCounted(w: seq<real>, cutoff: real)
    requires forall i :: 0 <= i < |w| ==> w[i] >= cutoff
    ensures CountFrom(w, cutoff) == |w|
  {
    if w != [] {
      AllCounted(w[1..], cutoff);
    }
  }

  lemma {:induction false} NoneCounted(w: seq<real>, cutoff: real)
    requires forall i :: 0 <= i < |w| ==> w[i] < cutoff
    ensures CountFrom(w, cutoff) == 0
  {
    if w != [] {
      NoneCounted(w[1..], cutoff);
    }
  }

  lemma {:induction false} CountAppend(w: seq<real>, x: real, cutoff: real)
    ensures CountFrom(w + [x], cutoff) == CountFrom(w, cutoff) + (if x >= cutoff then 1 else 0)
  {
    if w == [] {
      assert w + [x] == [x];
    } else {
      assert (w + [x])[1..] == w[1..] + [x];
      CountAppend(w[1..], x, cutoff);
    }
  }

  lemma {:induction false} PrunedLength(w: seq<real>, cutoff: real)
    requires ExpiredFirst(w, cutoff)
    ensures |Prune(w, cutoff)| == CountFrom(w, cutoff)
  {
    if w != [] {
      if w[0] < cutoff {
        PrunedLength(w[1..], cutoff);
      } else {
        AllCounted(w, cutoff);
      }
    }
  }

  /** A window agrees with count about what a later call can see at the cutoff. */
  ghost predicate Tracks(w: seq<real>, times: seq<real>, count: nat, cutoff: real) {
    && (forall x :: x in w ==> x in times)
    && ExpiredFirst(w, cutoff)
    && CountFrom(w, cutoff) == count
  }

  lemma {:induction false} PruneTracks(w: seq<real>, times: seq<real>, earlier: real, cutoff: real)
    requires Tracks(w, times, CountFrom(w, cutoff), cutoff)
    requires forall x :: x in w && x < earlier ==> x < cutoff
    ensures Tracks(Prune(w, earlier), times, CountFrom(w, cutoff), cutoff)
  {
    if w != [] && w[0] < earlier {
      assert w[0] in w && forall x :: x in w[1..] ==> x in w;
      assert ExpiredFirst(w[1..], cutoff);
      PruneTracks(w[1..], times, earlier, cutoff);
    }
  }

  lemma AppendTracks(w: seq<real>, times: seq<real>, now: real, cutoff: real)
    requires Tracks(w, times, CountFrom(w, cutoff), cutoff)
    requires now < cutoff ==> forall x :: x in times ==> x < cutoff
    ensures Tracks(w + [now], times + [now], CountFrom(w, cutoff) + (if now >= cutoff then 1 else 0), cutoff)
  {
    assert forall i :: 0 <= i < |w| ==> w[i] in w;
    CountAppend(w, now, cutoff);
  }

  lemma StaleTracks(w: seq<real>, times: seq<real>, earlier: real, cutoff: real)
    requires Tracks(w, times, CountFrom(w, cutoff), cutoff) && Stale(w, earlier)
    requires forall x :: x in times && x < earlier ==> x < cutoff
    ensures CountFrom(w, cutoff) == 0
  {
    assert w != [] ==> w[|w| - 1] in w;
    NoneCounted(w, cutoff);
  }

  lemma SettledLast(times: seq<real>, t: real, now: real)
    requires Settled(times + [t], now)
    ensures Settled(times, now)
    ensures forall x :: x in times && (t < now - 60.0 || x < t - 60.0) ==> x < now - 60.0
  {
    var longer := times + [t];
    assert forall i :: 0 <= i < |times| ==> longer[i] == times[i];
    assert longer[|times|] == t;
  }

  ghost predicate InStep(calls: seq<Call>, user: string, cutoff: real) {
    Tracks(WindowAfter(calls, user), Readings(calls), |RecentCalls(calls, user, cutoff)|, cutoff)
  }

  lemma OwnCallKeepsCount(calls: seq<Call>, c: Call, now: real)
    requires ReadsClock(c) && InStep(calls, c.user, now - 60.0) && Settled(Readings(calls + [c]), now)
    ensures InStep(calls + [c], c.user, now - 60.0)
  {
    var w, times := WindowAfter(calls, c.user), Readings(calls);
    OneMoreCall(calls, c);
    SettledLast(times, c.now, now);
    WindowStep(StateAfter(calls), c, c.user);
    RecentCallsOneMore(calls, c, c.user, now - 60.0);
    PruneTracks(w, times, c.now - WINDOW, now - 60.0);
    AppendTracks(Prune(w, c.now - WINDOW), times, c.now, now - 60.0);
  }

  lemma OthersCallKeepsCount(calls: seq<Call>, c: Call, user: string, now: real)
    requires ReadsClock(c) && c.user != user && InStep(calls, user, now - 60.0) && Settled(Readings(calls + [c]), now)
    ensures InStep(calls + [c], user, now - 60.0)
  {
    var w, times := WindowAfter(calls, user), Readings(calls);
    OneMoreCall(calls, c);
    SettledLast(times, c.now, now);
    WindowStep(StateAfter(calls), c, user);
    RecentCallsOneMore(calls, c, user, now - 60.0);
    if WindowAfter(calls + [c], user) != w {
      StaleTracks(w, times, c.now - WINDOW, now - 60.0);
    }
  }

  /** One call: every window keeps agreeing with the whole history about what a call at time now will
      count, whatever is pruned or purged. */
  lemma CallKeepsCount(calls: seq<Call>, c: Call, user: string, now: real)
    requires InStep(calls, user, now - 60.0) && Settled(Readings(calls + [c]), now)
    ensures InStep(calls + [c], user, now - 60.0)
  {
    if !ReadsClock(c) {
      OneMoreCall(calls, c);
      WindowStep(StateAfter(calls), c, user);
      RecentCallsOneMore(calls, c, user, now - 60.0);
    } else if c.user == user {
      OwnCallKeepsCount(calls, c, now);
    } else {
      OthersCallKeepsCount(calls, c, user, now);
    }
  }

  lemma {:induction false} RunKeepsCount(calls: seq<Call>, user: string, now: real)
    requires Settled(Readings(calls), now)
    ensures InStep(calls, user, now - 60.0)
  {
    if calls == [] {
      assert RecentCalls(calls, user, now - 60.0) == {};
    } else {
      var before, c := calls[..|calls| - 1], calls[|calls| - 1];
      LastCall(calls);
      OneMoreCall(before, c);
      if ReadsClock(c) {
        SettledLast(Readings(before), c.now, now);
      }
      RunKeepsCount(before, user, now);
      CallKeepsCount(before, c, user, now);
    }
  }

  /** The answer of a check is the one the whole history gives, although the limiter has forgotten most
      of it, whenever the clock readings so far are settled at the time of the check. */
  lemma RefinesFullHistory(calls: seq<Call>, c: Call)
    requires c.Check? && (c.limit > 0 ==> Settled(Readings(calls), c.now))
    ensures Accepts(calls, c) <==> Allowed(calls, c)
  {
    if c.limit > 0 {
      RunKeepsCount(calls, c.user, c.now);
      PrunedLength(WindowAfter(calls, c.user), c.now - WINDOW);
    }
  }

  lemma SteadyClockSettles(times: seq<real>, now: real)
    requires NeverGoesBack(times + [now])
    ensures Settled(times, now)
  {
    var all := times + [now];
    assert all[|times|] == now;
    assert forall i :: 0 <= i < |times| ==> all[i] == times[i];
  }

  // ----- What goes wrong when the readings are not settled -----

  /** User "a" calls at i and at j, and somebody else at every other position. */
  function CallsAt(times: seq<real>, i: nat, j: nat, limit: int): (calls: seq<Call>)
    ensures |calls| == |times|
  {
    seq(|times|, n requires 0 <= n < |times| => Check(if n == i || n == j then "a" else "b", limit, times[n]))
  }

  lemma {:induction false} ReadingsOfChecks(calls: seq<Call>)
    requires forall n :: 0 <= n < |calls| ==> ReadsClock(calls[n])
    ensures |Readings(calls)| == |calls|
    ensures forall n :: 0 <= n < |calls| ==> ReadsClock(calls[n]) && Readings(calls)[n] == calls[n].now
  {
    if calls != [] {
      ReadingsOfChecks(calls[..|calls| - 1]);
    }
  }

  /** Both calls of "a" are sure to be accepted. */
  predicate LimitServes(times: seq<real>, i: nat, j: nat, limit: int)
    requires i < j < |times|
  {
    limit >= 2 || (limit == 1 && times[i] < times[j] - 60.0)
  }

  /** The windows that "a" can have before position n, purged or not. */
  predicate Possible(times: seq<real>, i: nat, j: nat, n: nat, w: seq<real>)
    requires i < j < |times|
  {
    || w == []
    || (i < n <= j && w == [times[i]])
    || (j < n && w == [times[j]])
    || (j < n && w == [times[i], times[j]] && times[i] >= times[j] - 60.0)
  }

  lemma PruneShortens(w: seq<real>, cutoff: real)
    ensures |Prune(w, cutoff)| <= |w|
  {
  }

  /** One call of "a" at n, the other user's calls aside. */
  lemma PossiblePruned(times: seq<real>, i: nat, j: nat, n: nat, w: seq<real>)
    requires i < j < |times| && (n == i || n == j) && Possible(times, i, j, n, w)
    ensures var pruned := Prune(w, times[n] - WINDOW);
            && Possible(times, i, j, n + 1, pruned + [times[n]])
            && |pruned| <= 1 && (n == i || times[i] < times[j] - 60.0 ==> pruned == [])
  {
    if w != [] {
      assert w == [times[i]] && Prune(w[1..], times[n] - WINDOW) == [];
      assert Prune(w, times[n] - WINDOW) == if times[i] < times[j] - 60.0 then [] else w;
    }
  }

  lemma PossibleStep(times: seq<real>, i: nat, j: nat, limit: int, n: nat, before: seq<Call>, c: Call)
    requires i < j < |times| && n < |times| && LimitServes(times, i, j, limit)
    requires c == Check(if n == i || n == j then "a" else "b", limit, times[n])
    requires Possible(times, i, j, n, WindowAfter(before, "a"))
    ensures Possible(times, i, j, n + 1, WindowAfter(before + [c], "a"))
    ensures n == i || n == j ==> Accepts(before, c)
  {
    OneMoreCall(before, c);
    WindowStep(StateAfter(before), c, "a");
    if n == i || n == j {
      PossiblePruned(times, i, j, n, WindowAfter(before, "a"));
    }
  }

  lemma {:induction false} PossibleWindows(times: seq<real>, i: nat, j: nat, limit: int, n: nat)
    requires i < j < |times| && n <= |times| && LimitServes(times, i, j, limit)
    ensures Possible(times, i, j, n, WindowAfter(CallsAt(times, i, j, limit)[..n], "a"))
  {
    var calls := CallsAt(times, i, j, limit);
    if n > 0 {
      PossibleWindows(times, i, j, limit, n - 1);
      assert calls[..n] == calls[..n - 1] + [calls[n - 1]];
      PossibleStep(times, i, j, limit, n - 1, calls[..n - 1], calls[n - 1]);
    }
  }

  lemma EachCounts(times: seq<real>, i: nat, j: nat, limit: int, n: nat)
    requires i < j < |times| && LimitServes(times, i, j, limit) && (n == i || n == j)
    ensures CountsAgainst(CallsAt(times, i, j, limit), n, "a")
  {
    var calls := CallsAt(times, i, j, limit);
    PossibleWindows(times, i, j, limit, n);
    PossibleStep(times, i, j, limit, n, calls[..n], calls[n]);
  }

  /** The calls of "a" that count are those at i and j. */
  lemma BothCount(times: seq<real>, i: nat, j: nat, limit: int)
    requires i < j < |times| && LimitServes(times, i, j, limit)
    ensures CallsSince(CallsAt(times, i, j, limit), "a", 0) == {i, j}
  {
    EachCounts(times, i, j, limit, i);
    EachCounts(times, i, j, limit, j);
  }

  predicate Unsettled(times: seq<real>, now: real, i: nat, j: nat) {
    && i < j < |times| && times[i] >= now - 60.0
    && (times[j] < now - 60.0 || times[i] < times[j] - 60.0)
  }

  lemma RecentOfBoth(times: seq<real>, now: real, i: nat, j: nat)
    requires Unsettled(times, now, i, j)
    ensures |RecentCalls(CallsAt(times, i, j, 2), "a", now - 60.0)| == if times[j] < now - 60.0 then 1 else 2
  {
    var calls := CallsAt(times, i, j, 2);
    BothCount(times, i, j, 2);
    forall n: nat ensures n in RecentCalls(calls, "a", now - 60.0)
        <==> n in CallsSince(calls, "a", 0) && times[n] >= now - 60.0 {
    }
    assert RecentCalls(calls, "a", now - 60.0) == if times[j] < now - 60.0 then {i} else {i, j};
  }

  lemma PrunedOfBoth(times: seq<real>, now: real, i: nat, j: nat, w: seq<real>)
    requires Unsettled(times, now, i, j) && Possible(times, i, j, |times|, w)
    ensures |Prune(w, now - 60.0)| != if times[j] < now - 60.0 then 1 else 2
  {
    PruneShortens(w, now - 60.0);
    if w == [times[j]] && times[j] < now - 60.0 {
      assert Prune(w, now - 60.0) == Prune(w[1..], now - 60.0) == [];
    }
  }

  lemma TellsApart(calls: seq<Call>, user: string, now: real, limit: int)
    requires
      var left := |Prune(WindowAfter(calls, user), now - WINDOW)|;
      var recent := |RecentCalls(calls, user, now - 60.0)|;
      left != recent && limit == 1 + if left < recent then left else recent
    ensures Accepts(calls, Check(user, limit, now)) != Allowed(calls, Check(user, limit, now))
  {
  }

  /** A call of "a" at time now after such a run, with a limit that tells the window and the whole
      history apart. */
  lemma UnsettledDisagrees(times: seq<real>, now: real, i: nat, j: nat) returns (calls: seq<Call>, c: Call)
    requires Unsettled(times, now, i, j)
    ensures ReadsClock(c) && c.now == now && Readings(calls) == times
    ensures Accepts(calls, c) != Allowed(calls, c)
  {
    calls := CallsAt(times, i, j, 2);
    ReadingsOfChecks(calls);
    PossibleWindows(times, i, j, 2, |times|);
    assert calls[..|times|] == calls;
    RecentOfBoth(times, now, i, j);
    PrunedOfBoth(times, now, i, j, WindowAfter(calls, "a"));
    var left, recent := |Prune(WindowAfter(calls, "a"), now - 60.0)|, |RecentCalls(calls, "a", now - 60.0)|;
    c := Check("a", 1 + if left < recent then left else recent, now);
    TellsApart(calls, "a", now, c.limit);
  }

  /** Exactly when the readings are settled at time now does every run with these readings, resets and
      unlimited calls included, answer a check at time now as the whole history does. */
  lemma FullHistoryIffSettled(times: seq<real>, now: real)
    ensures Settled(times, now) <==>
            forall calls, c: Call :: c.Check? && c.now == now && Readings(calls) == times
              ==> (Accepts(calls, c) <==> Allowed(calls, c))
  {
    if i: nat, j: nat :| Unsettled(times, now, i, j) {
      var calls, c := UnsettledDisagrees(times, now, i, j);
    } else {
      forall i, j | 0 <= i < j < |times| && (times[j] < now - 60.0 || times[i] < times[j] - 60.0)
        ensures times[i] < now - 60.0
      {
        assert !Unsettled(times, now, i, j);
      }
      forall calls, c: Call | c.Check? && c.now == now && Readings(calls) == times
        ensures Accepts(calls, c) <==> Allowed(calls, c)
      {
        RefinesFullHistory(calls, c);
      }
    }
  }

  lemma TwoCalls(a: Call, b: Call)
    requires ReadsClock(a) && ReadsClock(b)
    ensures StateAfter([a, b]) == LimiterStep(LimiterStep(LimiterState(map[], 0.0), a), b)
  {
    assert [] + [a] == [a] && [a] + [b] == [a, b];
    OneMoreCall([], a);
    OneMoreCall([a], b);
  }

  /** A clock that goes back can refuse a call under a limit of 2 when one call of the last 60 seconds
      counts, and accept one when two do. */
  lemma ClockGoesBack()
    ensures !Accepts([Check("a", 2, 100.0), Check("a", 2, 0.0)], Check("a", 2, 61.0))
    ensures Allowed([Check("a", 2, 100.0), Check("a", 2, 0.0)], Check("a", 2, 61.0))
    ensures Accepts([Check("a", 2, 0.0), Check("a", 2, 100.0)], Check("a", 2, 10.0))
    ensures !Allowed([Check("a", 2, 0.0), Check("a", 2, 100.0)], Check("a", 2, 10.0))
  {
    var early, late := Check("a", 2, 0.0), Check("a", 2, 100.0);
    TwoCalls(late, early);
    assert [late, early] == CallsAt([100.0, 0.0], 0, 1, 2);
    RecentOfBoth([100.0, 0.0], 61.0, 0, 1);
    TwoCalls(early, late);
    assert [early, late] == CallsAt([0.0, 100.0], 0, 1, 2);
    RecentOfBoth([0.0, 100.0], 10.0, 0, 1);
    assert Prune([0.0], 40.0) == Prune([], 40.0);
  }

  // ----- The sliding-window bound -----

  /** No reading is more than 60 seconds after an earlier one. */
  predicate WithinAMinute(times: seq<real>) {
    forall i, j :: 0 <= i < j < |times| ==> times[j] <= times[i] + 60.0
  }

  /** The user's accepted positive-limit calls from position first on, counted since the user's last
      reset, are at most as many as the limit given at the last of them. */
  ghost predicate Bounded(calls: seq<Call>, user: string, first: nat) {
    var counted := CallsSince(calls, user, first);
    forall last :: last in counted && (forall i :: i in counted ==> i <= last) ==> |counted| <= calls[last].limit
  }

  /** The newest n entries of a window are among the readings. */
  ghost predicate EndsIn(w: seq<real>, n: nat, times: seq<real>) {
    n <= |w| && forall k :: |w| - n <= k < |w| ==> w[k] in times
  }

  lemma {:induction false} PruneKeepsEnd(w: seq<real>, cutoff: real, n: nat, times: seq<real>)
    requires EndsIn(w, n, times) && forall x :: x in times ==> x >= cutoff
    ensures EndsIn(Prune(w, cutoff), n, times)
  {
    if w != [] && w[0] < cutoff {
      PruneKeepsEnd(w[1..], cutoff, n, times);
    }
  }

  lemma AppendKeepsEnd(w: seq<real>, n: nat, times: seq<real>, t: real)
    requires EndsIn(w, n, times)
    ensures EndsIn(w, n, times + [t]) && EndsIn(w + [t], n + 1, times + [t])
  {
    assert t in times + [t];
  }

  lemma StaleHasNoEnd(w: seq<real>, n: nat, times: seq<real>, cutoff: real)
    requires EndsIn(w, n, times) && Stale(w, cutoff) && forall x :: x in times ==> x >= cutoff
    ensures n == 0
  {
  }

  /** The newest entries of the window are as many readings of the stretch as it has calls that count. */
  ghost predicate KeepsAll(calls: seq<Call>, user: string, first: nat)
    requires first <= |calls|
  {
    EndsIn(WindowAfter(calls, user), |CallsSince(calls, user, first)|, Readings(calls[first..]))
  }

  lemma WithinLast(times: seq<real>, t: real)
    requires WithinAMinute(times + [t])
    ensures WithinAMinute(times)
    ensures forall x :: x in times ==> x >= t - 60.0
  {
    var longer := times + [t];
    assert forall i :: 0 <= i < |times| ==> longer[i] == times[i];
    assert longer[|times|] == t;
  }

  lemma StretchOneMore(calls: seq<Call>, c: Call, first: nat)
    requires first <= |calls|
    ensures Readings((calls + [c])[first..]) ==
            if ReadsClock(c) then Readings(calls[first..]) + [c.now] else Readings(calls[first..])
  {
    assert (calls + [c])[first..] == calls[first..] + [c];
    OneMoreCall(calls[first..], c);
  }

  lemma OwnCallKeepsAll(calls: seq<Call>, c: Call, first: nat)
    requires first <= |calls| && KeepsAll(calls, c.user, first) && ReadsClock(c)
    requires WithinAMinute(Readings((calls + [c])[first..]))
    ensures KeepsAll(calls + [c], c.user, first)
  {
    var w, n, times := WindowAfter(calls, c.user), |CallsSince(calls, c.user, first)|, Readings(calls[first..]);
    StretchOneMore(calls, c, first);
    WithinLast(times, c.now);
    PruneKeepsEnd(w, c.now - WINDOW, n, times);
    AppendKeepsEnd(Prune(w, c.now - WINDOW), n, times, c.now);
    OneMoreCall(calls, c);
    WindowStep(StateAfter(calls), c, c.user);
    CallsSinceOneMore(calls, c, c.user, first);
  }

  lemma OthersCallKeepsAll(calls: seq<Call>, c: Call, user: string, first: nat)
    requires first <= |calls| && KeepsAll(calls, user, first) && ReadsClock(c) && c.user != user
    requires WithinAMinute(Readings((calls + [c])[first..]))
    ensures KeepsAll(calls + [c], user, first)
  {
    var w, n, times := WindowAfter(calls, user), |CallsSince(calls, user, first)|, Readings(calls[first..]);
    StretchOneMore(calls, c, first);
    WithinLast(times, c.now);
    AppendKeepsEnd(w, n, times, c.now);
    OneMoreCall(calls, c);
    WindowStep(StateAfter(calls), c, user);
    CallsSinceOneMore(calls, c, user, first);
    if WindowAfter(calls + [c], user) != w {
      StaleHasNoEnd(w, n, times, c.now - WINDOW);
    }
  }

  lemma CallKeepsAll(calls: seq<Call>, c: Call, user: string, first: nat)
    requires first <= |calls| && KeepsAll(calls, user, first)
    requires WithinAMinute(Readings((calls + [c])[first..]))
    ensures KeepsAll(calls + [c], user, first)
  {
    if !ReadsClock(c) {
      StretchOneMore(calls, c, first);
      OneMoreCall(calls, c);
      WindowStep(StateAfter(calls), c, user);
      CallsSinceOneMore(calls, c, user, first);
    } else if c.user == user {
      OwnCallKeepsAll(calls, c, first);
    } else {
      OthersCallKeepsAll(calls, c, user, first);
    }
  }

  lemma {:induction false} StretchKeepsAll(calls: seq<Call>, user: string, first: nat)
    requires first <= |calls| && WithinAMinute(Readings(calls[first..]))
    ensures KeepsAll(calls, user, first)
  {
    if |calls| == first {
      assert CallsSince(calls, user, first) == {};
    } else {
      var before, c := calls[..|calls| - 1], calls[|calls| - 1];
      LastCall(calls);
      StretchOneMore(before, c, first);
      if ReadsClock(c) {
        WithinLast(Readings(before[first..]), c.now);
      }
      StretchKeepsAll(before, user, first);
      CallKeepsAll(before, c, user, first);
    }
  }

  lemma {:induction false} StretchOfPrefix(stretch: seq<Call>, n: nat)
    requires n <= |stretch| && WithinAMinute(Readings(stretch))
    ensures WithinAMinute(Readings(stretch[..n]))
    decreases |stretch|
  {
    if n == |stretch| {
      assert stretch[..n] == stretch;
    } else {
      var shorter, c := stretch[..|stretch| - 1], stretch[|stretch| - 1];
      if ReadsClock(c) {
        WithinLast(Readings(shorter), c.now);
      } else {
        assert Readings(stretch) == Readings(shorter);
      }
      StretchOfPrefix(shorter, n);
      assert shorter[..n] == stretch[..n];
    }
  }

  /** A granted call found room beside every call of the stretch that counts. */
  lemma GrantFits(calls: seq<Call>, c: Call, first: nat)
    requires ReadsClock(c) && Accepts(calls, c)
    requires first <= |calls| && WithinAMinute(Readings(calls[first..] + [c]))
    ensures |CallsSince(calls, c.user, first)| < c.limit
  {
    OneMoreCall(calls[first..], c);
    WithinLast(Readings(calls[first..]), c.now);
    StretchKeepsAll(calls, c.user, first);
    var n, times := |CallsSince(calls, c.user, first)|, Readings(calls[first..]);
    PruneKeepsEnd(WindowAfter(calls, c.user), c.now - WINDOW, n, times);
  }

  lemma CountedBefore(calls: seq<Call>, user: string, i: nat, j: nat)
    requires i < j < |calls| && CountsAgainst(calls, i, user)
    ensures CountsAgainst(calls[..j], i, user)
  {
    assert calls[..j][i] == calls[i] && calls[..j][..i] == calls[..i];
  }

  lemma CallsSinceBefore(calls: seq<Call>, user: string, first: nat, last: nat)
    requires last in CallsSince(calls, user, first)
    requires forall i :: i in CallsSince(calls, user, first) ==> i <= last
    ensures |CallsSince(calls, user, first)| <= |CallsSince(calls[..last], user, first)| + 1
  {
    var earlier := CallsSince(calls, user, first) - {last};
    forall i | i in earlier ensures i in CallsSince(calls[..last], user, first) {
      CountedBefore(calls, user, i, last);
    }
    SubsetSize(earlier, CallsSince(calls[..last], user, first));
  }

  lemma BoundedAtLast(calls: seq<Call>, user: string, first: nat, last: nat)
    requires first <= |calls| && WithinAMinute(Readings(calls[first..]))
    requires last in CallsSince(calls, user, first)
    requires forall i :: i in CallsSince(calls, user, first) ==> i <= last
    ensures |CallsSince(calls, user, first)| <= calls[last].limit
  {
    StretchOfPrefix(calls[first..], last + 1 - first);
    assert calls[first..][..last + 1 - first] == calls[..last][first..] + [calls[last]];
    GrantFits(calls[..last], calls[last], first);
    CallsSinceBefore(calls, user, first, last);
  }

  /** Over any stretch of calls in which the clock never shows more than 60 seconds after an earlier
      reading of the stretch, a user is granted at most the limit given at the last grant. What the
      clock and the windows did before the stretch does not matter. */
  lemma SlidingWindowBound(calls: seq<Call>, user: string, first: nat)
    requires first <= |calls| && WithinAMinute(Readings(calls[first..]))
    ensures Bounded(calls, user, first)
  {
    forall last | last in CallsSince(calls, user, first)
                  && (forall i :: i in CallsSince(calls, user, first) ==> i <= last)
      ensures |CallsSince(calls, user, first)| <= calls[last].limit
    {
      BoundedAtLast(calls, user, first, last);
    }
  }

  /** A stretch whose clock readings do not all fit within a minute, and that breaks the bound. */
  lemma SpreadBreaksBound(times: seq<real>, i: nat, j: nat)
    requires i < j < |times| && times[i] < times[j] - 60.0
    ensures !Bounded(CallsAt(times, i, j, 1), "a", 0)
  {
    BothCount(times, i, j, 1);
    var counted := CallsSince(CallsAt(times, i, j, 1), "a", 0);
    assert j in counted && (forall n :: n in counted ==> n <= j) && |counted| == 2;
  }

  /** The bound holds of every stretch with these clock readings, whatever came before it, exactly when
      no reading is more than 60 seconds after an earlier one. */
  lemma BoundIffWithinAMinute(times: seq<real>)
    ensures WithinAMinute(times) <==>
            forall calls, user, first: nat :: first <= |calls| && Readings(calls[first..]) == times
              ==> Bounded(calls, user, first)
  {
    if i: nat, j: nat :| i < j < |times| && times[i] < times[j] - 60.0 {
      var calls := CallsAt(times, i, j, 1);
      ReadingsOfChecks(calls);
      assert calls[0..] == calls;
      SpreadBreaksBound(times, i, j);
    } else {
      forall calls, user, first: nat | first <= |calls| && Readings(calls[first..]) == times
        ensures Bounded(calls, user, first)
      {
        SlidingWindowBound(calls, user, first);
      }
    }
  }

  // ----- Intervals of the clock -----

  /** Positions of the user's counting calls with time in the closed interval [from, from + 60]. */
  function CallsWithin(calls: seq<Call>, user: string, from: real): set<nat> {
    set i: nat | i < |calls| && CountsAgainst(calls, i, user) && from <= calls[i].now <= from + 60.0
  }

  /** Every closed 60-second interval of the clock holds at most as many of a user's accepted
      positive-limit calls, counted since the user's last reset, as the limit given at the last of them,
      if between the first and the last of them no reading is more than 60 seconds after an earlier one. */
  lemma IntervalBound(calls: seq<Call>, user: string, from: real, first: nat, last: nat)
    requires last in CallsWithin(calls, user, from)
    requires forall i :: i in CallsWithin(calls, user, from) ==> first <= i <= last
    requires first <= last && WithinAMinute(Readings(calls[first..last + 1]))
    ensures |CallsWithin(calls, user, from)| <= calls[last].limit
  {
    var stretch := calls[..last + 1];
    assert stretch[first..] == calls[first..last + 1];
    SlidingWindowBound(stretch, user, first);
    forall i | i in CallsWithin(calls, user, from) ensures i in CallsSince(stretch, user, first) {
      assert stretch[i] == calls[i] && stretch[..i] == calls[..i];
    }
    SubsetSize(CallsWithin(calls, user, from), CallsSince(stretch, user, first));
  }

  lemma {:induction false} ReadingsBetween(calls: seq<Call>, from: real, to: real)
    requires forall i :: 0 <= i < |calls| && ReadsClock(calls[i]) ==> from <= calls[i].now <= to
    ensures forall x :: x in Readings(calls) ==> from <= x <= to
  {
    if calls != [] {
      ReadingsBetween(calls[..|calls| - 1], from, to);
    }
  }

  /** With a clock that never goes back the interval needs no other condition. */
  lemma SteadyIntervalBound(calls: seq<Call>, user: string, from: real, first: nat, last: nat)
    requires forall i, j :: 0 <= i < j < |calls| && ReadsClock(calls[i]) && ReadsClock(calls[j])
               ==> calls[i].now <= calls[j].now
    requires first in CallsWithin(calls, user, from) && last in CallsWithin(calls, user, from)
    requires forall i :: i in CallsWithin(calls, user, from) ==> first <= i <= last
    ensures |CallsWithin(calls, user, from)| <= calls[last].limit
  {
    var stretch := calls[first..last + 1];
    forall i | 0 <= i < |stretch| && ReadsClock(stretch[i]) ensures from <= stretch[i].now <= from + 60.0 {
      assert stretch[i] == calls[first + i];
    }
    ReadingsBetween(stretch, from, from + 60.0);
    assert forall k :: 0 <= k < |Readings(stretch)| ==> Readings(stretch)[k] in Readings(stretch);
    IntervalBound(calls, user, from, first, last);
  }

  // ----- What is kept in memory -----

  /** A granted call deletes somebody else's window exactly when more than 300 seconds have passed since the
      last cleanup and the window is empty or its newest entry is older than 60 seconds; any other window of
      theirs is kept as it is. */
  lemma PurgedIffDueAndStale(st: LimiterState, c: Call, user: string)
    requires ReadsClock(c) && AfterCheck(st, c.user, c.limit, c.now).1
    requires user != c.user && user in st.windows
    ensures var after, w := LimiterStep(st, c), st.windows[user];
      && (user !in after.windows <==>
          c.now - st.lastCleanup > 300.0 && (w == [] || w[|w| - 1] < c.now - 60.0))
      && (user in after.windows ==> after.windows[user] == w)
      && after.lastCleanup == if c.now - st.lastCleanup > 300.0 then c.now else st.lastCleanup
  {
  }

  /** Every stored window has an entry not much older than the last cleanup. */
  ghost predicate FreshSinceCleanup(st: LimiterState) {
    forall user :: user in st.windows ==>
      var w := st.windows[user]; w != [] && w[|w| - 1] >= st.lastCleanup - WINDOW
  }

  lemma {:induction false} PruneKeepsNewest(w: seq<real>, cutoff: real)
    ensures var p := Prune(w, cutoff); p != [] ==> w != [] && p[|p| - 1] == w[|w| - 1]
  {
    if w != [] && w[0] < cutoff {
      PruneKeepsNewest(w[1..], cutoff);
    }
  }

  lemma CheckKeepsFresh(st: LimiterState, c: Call)
    requires FreshSinceCleanup(st) && ReadsClock(c) && c.now >= st.lastCleanup
    ensures FreshSinceCleanup(LimiterStep(st, c))
    ensures AfterCheck(st, c.user, c.limit, c.now).1 ==> c.now - LimiterStep(st, c).lastCleanup <= 300.0
  {
    PruneKeepsNewest(Window(st.windows, c.user), c.now - WINDOW);
  }

  lemma LastReading(times: seq<real>, t: real)
    requires NeverGoesBack([0.0] + (times + [t]))
    ensures NeverGoesBack([0.0] + times)
    ensures 0.0 <= t && forall x :: x in times ==> x <= t
  {
    var all, before := [0.0] + (times + [t]), [0.0] + times;
    assert forall i :: 0 <= i < |before| ==> all[i] == before[i];
    assert all[0] == 0.0 && all[|before|] == t;
    assert forall i :: 0 <= i < |times| ==> before[i + 1] == times[i];
  }

  lemma CleanupIsAReading(calls: seq<Call>, c: Call)
    requires ReadsClock(c)
    requires StateAfter(calls).lastCleanup == 0.0 || StateAfter(calls).lastCleanup in Readings(calls)
    ensures LimiterStep(StateAfter(calls), c).lastCleanup == 0.0
      || LimiterStep(StateAfter(calls), c).lastCleanup in Readings(calls) + [c.now]
  {
    var last := LimiterStep(StateAfter(calls), c).lastCleanup;
    assert last == StateAfter(calls).lastCleanup || last == c.now;
  }

  lemma {:induction false} RunKeepsFresh(calls: seq<Call>)
    requires NeverGoesBack([0.0] + Readings(calls))
    ensures FreshSinceCleanup(StateAfter(calls))
    ensures StateAfter(calls).lastCleanup == 0.0 || StateAfter(calls).lastCleanup in Readings(calls)
  {
    if calls != [] {
      var before, c := calls[..|calls| - 1], calls[|calls| - 1];
      LastCall(calls);
      OneMoreCall(before, c);
      if ReadsClock(c) {
        LastReading(Readings(before), c.now);
        RunKeepsFresh(before);
        CheckKeepsFresh(StateAfter(before), c);
        CleanupIsAReading(before, c);
      } else {
        RunKeepsFresh(before);
      }
    }
  }

  /** With a clock that never goes back from the epoch on, after every granted call each stored window has
      an entry from the last 360 seconds: the limiter forgets users who have stopped calling. */
  lemma IdleUsersAreForgotten(calls: seq<Call>, c: Call, user: string)
    requires NeverGoesBack([0.0] + Readings(calls + [c])) && ReadsClock(c) && Accepts(calls, c)
    requires user in StateAfter(calls + [c]).windows
    ensures exists t :: t in WindowAfter(calls + [c], user) && t >= c.now - 360.0
  {
    OneMoreCall(calls, c);
    LastReading(Readings(calls), c.now);
    RunKeepsFresh(calls);
    CheckKeepsFresh(StateAfter(calls), c);
    var w := WindowAfter(calls + [c], user);
    assert w[|w| - 1] in w;
  }
}
