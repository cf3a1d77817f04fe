/** The sliding-window limiter of internal/federation/peering.go. Each call's clock reading is
    a parameter. */
module RateLimiters {
  import opened ByteStrings
  import opened Ordered

  type Histories = map<Str, seq<int>>

  function History(m: Histories, peer: Str): seq<int> { if peer in m then m[peer] else [] }

  /** The calls still inside the window that ends now. */
  function Recent(h: seq<int>, window: int, now: int): seq<int> { Filter(h, t => t > now - window) }

  function Allow(m: Histories, max: int, window: int, peer: Str, now: int): (Histories, bool)
  {
    var valid := Recent(History(m, peer), window, now);
    if |valid| >= max then (m[peer := valid], false) else (m[peer := valid + [now]], true)
  }

  function Cleanup(m: Histories, window: int, now: int): Histories
  {
    map peer | peer in m && Recent(m[peer], window, now) != [] :: Recent(m[peer], window, now)
  }

  class RateLimiter {
    const max: int
    const window: int
    var requests: Histories

    constructor (maxRequests: int, window: int)
      ensures max == maxRequests && this.window == window && requests == map[]
    {
      max, this.window, requests := maxRequests, window, map[];
    }

    method StillValid(history: seq<int>, now: int) returns (valid: seq<int>)
      ensures valid == Recent(history, window, now)
    {
      valid := [];
      for i := 0 to |history|
        invariant valid == Recent(history[..i], window, now)
      {
        assert history[..i + 1] == history[..i] + [history[i]];
        FilterAppend(history[..i], [history[i]], t => t > now - window);
        if history[i] > now - window { valid := valid + [history[i]]; }
      }
      assert history[..|history|] == history;
    }

    method AllowCall(peer: Str, now: int) returns (ok: bool)
      modifies this
      ensures (requests, ok) == Allow(old(requests), max, window, peer, now)
    {
      hide Recent;
      var valid := StillValid(if peer in requests then requests[peer] else [], now);
      if |valid| >= max {
        requests := requests[peer := valid];
        return false;
      }
      requests := requests[peer := valid + [now]];
      return true;
    }

    method CleanupAll(now: int)
      modifies this
      ensures requests == Cleanup(old(requests), window, now)
    {
      hide Recent;
      var todo := requests.Keys;
      while todo != {}
        invariant todo <= old(requests).Keys
        invariant forall p :: p in requests <==>
          p in old(requests) && (p in todo || Recent(old(requests)[p], window, now) != [])
        invariant forall p | p in requests ::
          requests[p] == if p in todo then old(requests)[p] else Recent(old(requests)[p], window, now)
        decreases |todo|
      {
        var peer :| peer in todo;
        todo := todo - {peer};
        var valid := StillValid(requests[peer], now);
        if |valid| == 0 {
          requests := requests - {peer};
        } else {
          requests := requests[peer := valid];
        }
      }
    }
  }

  // ---- runs

  datatype Op = OpAllow(peer: Str, now: int) | OpCleanup(now: int)
  datatype Outcome = Outcome(peer: Str, now: int, granted: bool)

  /** The answers of the limiter, one per call. */
  function Trace(m: Histories, max: int, window: int, ops: seq<Op>): seq<Outcome>
    decreases |ops|
  {
    if ops == [] then []
    else match ops[0]
      case OpAllow(peer, now) =>
        var (m', ok) := Allow(m, max, window, peer, now);
        [Outcome(peer, now, ok)] + Trace(m', max, window, ops[1..])
      case OpCleanup(now) => Trace(Cleanup(m, window, now), max, window, ops[1..])
  }

  /** The plain rule: remember every granted call for ever, grant when the window holds fewer
      than the limit. */
  function PlainTrace(full: Histories, max: int, window: int, ops: seq<Op>): seq<Outcome>
    decreases |ops|
  {
    if ops == [] then []
    else match ops[0]
      case OpAllow(peer, now) =>
        var ok := |Recent(History(full, peer), window, now)| < max;
        var full' := if ok then full[peer := History(full, peer) + [now]] else full;
        [Outcome(peer, now, ok)] + PlainTrace(full', max, window, ops[1..])
      case OpCleanup(_) => PlainTrace(full, max, window, ops[1..])
  }

  ghost predicate ClockFrom(clock: int, ops: seq<Op>)
    decreases |ops|
  {
    ops != [] ==> clock <= ops[0].now && ClockFrom(ops[0].now, ops[1..])
  }

  /** Pruned and full histories agree inside the window. */
  ghost predicate Matches(m: Histories, full: Histories, window: int, clock: int)
  {
    forall peer :: Recent(History(m, peer), window, clock) == Recent(History(full, peer), window, clock)
  }

  lemma RecentTwice(h: seq<int>, window: int, clock: int, now: int)
    requires clock <= now
    ensures Recent(Recent(h, window, clock), window, now) == Recent(h, window, now)
    ensures Recent(Recent(h, window, now), window, now) == Recent(h, window, now)
  {
    FilterTwice(h, t => t > clock - window, t => t > now - window);
    FilterTwice(h, t => t > now - window, t => t > now - window);
  }

  lemma MatchesLater(m: Histories, full: Histories, window: int, clock: int, now: int)
    requires Matches(m, full, window, clock) && clock <= now
    ensures Matches(m, full, window, now)
  {
    hide Recent;
    forall peer ensures Recent(History(m, peer), window, now) == Recent(History(full, peer), window, now) {
      RecentTwice(History(m, peer), window, clock, now);
      RecentTwice(History(full, peer), window, clock, now);
    }
  }

  lemma MatchesAfterCleanup(m: Histories, full: Histories, window: int, now: int)
    requires Matches(m, full, window, now)
    ensures Matches(Cleanup(m, window, now), full, window, now)
  {
    hide Recent;
    forall peer
      ensures Recent(History(Cleanup(m, window, now), peer), window, now) == Recent(History(m, peer), window, now) {
      RecentTwice(History(m, peer), window, now, now);
      RecentTwice([], window, now, now);
      RecentOfNothing(window, now);
    }
  }

  lemma RecentOfNothing(window: int, now: int)
    ensures Recent([], window, now) == []
  {
  }

  lemma RecentAppend(h: seq<int>, window: int, now: int, t: int)
    ensures Recent(h + [t], window, now) == Recent(h, window, now) + Recent([t], window, now)
  {
    FilterAppend(h, [t], x => x > now - window);
  }

  lemma MatchesAfterAllow(m: Histories, full: Histories, max: int, window: int, peer: Str, now: int)
    requires Matches(m, full, window, now)
    ensures var (m', ok) := Allow(m, max, window, peer, now);
            && (ok <==> |Recent(History(full, peer), window, now)| < max)
            && Matches(m', if ok then full[peer := History(full, peer) + [now]] else full, window, now)
  {
    hide Recent;
    var valid := Recent(History(m, peer), window, now);
    RecentTwice(History(m, peer), window, now, now);
    RecentAppend(valid, window, now, now);
    RecentAppend(History(full, peer), window, now, now);
    var (m', ok) := Allow(m, max, window, peer, now);
    var full' := if ok then full[peer := History(full, peer) + [now]] else full;
    forall p ensures Recent(History(m', p), window, now) == Recent(History(full', p), window, now) {
      if p != peer { assert History(m', p) == History(m, p) && History(full', p) == History(full, p); }
    }
  }

  /** Forgetting old calls is unobservable: the limiter answers as the plain rule. */
  lemma {:induction false} LimiterIsPlainRule(
    m: Histories, full: Histories, max: int, window: int, clock: int, ops: seq<Op>)
    requires Matches(m, full, window, clock) && ClockFrom(clock, ops)
    ensures Trace(m, max, window, ops) == PlainTrace(full, max, window, ops)
    decreases |ops|
  {
    hide Matches; hide Allow; hide Cleanup; hide Recent;
    if ops != [] {
      MatchesLater(m, full, window, clock, ops[0].now);
      match ops[0] {
        case OpAllow(peer, now) =>
          MatchesAfterAllow(m, full, max, window, peer, now);
          var (m', ok) := Allow(m, max, window, peer, now);
          var full' := if ok then full[peer := History(full, peer) + [now]] else full;
          LimiterIsPlainRule(m', full', max, window, now, ops[1..]);
        case OpCleanup(now) =>
          MatchesAfterCleanup(m, full, window, now);
          LimiterIsPlainRule(Cleanup(m, window, now), full, max, window, now, ops[1..]);
      }
    }
  }

  function WithoutCleanups(ops: seq<Op>): seq<Op> { Filter(ops, (op: Op) => op.OpAllow?) }

  lemma {:induction false} PlainRuleIgnoresCleanups(full: Histories, max: int, window: int, ops: seq<Op>)
    ensures PlainTrace(full, max, window, WithoutCleanups(ops)) == PlainTrace(full, max, window, ops)
    decreases |ops|
  {
    hide Recent;
    if ops != [] {
      var kept := WithoutCleanups(ops);
      match ops[0] {
        case OpAllow(peer, now) =>
          assert kept[0] == ops[0] && kept[1..] == WithoutCleanups(ops[1..]);
          var ok := |Recent(History(full, peer), window, now)| < max;
          var full' := if ok then full[peer := History(full, peer) + [now]] else full;
          PlainRuleIgnoresCleanups(full', max, window, ops[1..]);
        case OpCleanup(_) =>
          assert kept == WithoutCleanups(ops[1..]);
          PlainRuleIgnoresCleanups(full, max, window, ops[1..]);
      }
    }
  }

  lemma {:induction false} ClockWithoutCleanups(clock: int, ops: seq<Op>, later: int)
    requires ClockFrom(clock, ops) && later <= clock
    ensures ClockFrom(later, WithoutCleanups(ops))
    decreases |ops|
  {
    if ops != [] {
      var kept := WithoutCleanups(ops);
      if ops[0].OpAllow? {
        ClockWithoutCleanups(ops[0].now, ops[1..], ops[0].now);
        assert kept[0] == ops[0] && kept[1..] == WithoutCleanups(ops[1..]);
      } else {
        ClockWithoutCleanups(ops[0].now, ops[1..], later);
        assert kept == WithoutCleanups(ops[1..]);
      }
    }
  }

  /** Cleaning up, at any moments, changes no answer. */
  lemma CleanupChangesNoDecision(max: int, window: int, clock: int, ops: seq<Op>)
    requires ClockFrom(clock, ops)
    ensures Trace(map[], max, window, ops) == Trace(map[], max, window, WithoutCleanups(ops))
  {
    LimiterIsPlainRule(map[], map[], max, window, clock, ops);
    PlainRuleIgnoresCleanups(map[], max, window, ops);
    ClockWithoutCleanups(clock, ops, clock);
    LimiterIsPlainRule(map[], map[], max, window, clock, WithoutCleanups(ops));
  }

  // ---- the bound

  function Granted(trace: seq<Outcome>, peer: Str): seq<int>
  {
    if trace == [] then []
    else (if trace[0].granted && trace[0].peer == peer then [trace[0].now] else []) + Granted(trace[1..], peer)
  }

  /** Calls in the half-open window of the configured length that ends at `t`. */
  function InWindow(h: seq<int>, window: int, t: int): seq<int> { Filter(h, x => t - window < x <= t) }

  ghost predicate Bounded(h: seq<int>, max: int, window: int) { forall t :: |InWindow(h, window, t)| <= max }

  ghost predicate UpTo(h: seq<int>, clock: int) { forall x | x in h :: x <= clock }

  lemma {:induction false} WindowWithinRecent(h: seq<int>, window: int, t: int, now: int)
    requires now <= t
    ensures |InWindow(h, window, t)| <= |Recent(h, window, now)|
  {
    if h != [] { WindowWithinRecent(h[1..], window, t, now); }
  }

  lemma BoundedAfterGrant(h: seq<int>, max: int, window: int, now: int)
    requires Bounded(h, max, window) && |Recent(h, window, now)| < max
    ensures Bounded(h + [now], max, window)
  {
    forall t ensures |InWindow(h + [now], window, t)| <= max {
      FilterAppend(h, [now], x => t - window < x <= t);
      if now <= t { WindowWithinRecent(h, window, t, now); }
      assert |InWindow(h, window, t)| <= max;
    }
  }

  lemma {:induction false} PlainRuleBound(full: Histories, max: int, window: int, ops: seq<Op>, peer: Str)
    requires Bounded(History(full, peer), max, window)
    ensures Bounded(History(full, peer) + Granted(PlainTrace(full, max, window, ops), peer), max, window)
    decreases |ops|
  {
    hide Bounded; hide Recent;
    var h := History(full, peer);
    if ops == [] {
      assert h + [] == h;
    } else if ops[0].OpAllow? {
      var p, now := ops[0].peer, ops[0].now;
      var ok := |Recent(History(full, p), window, now)| < max;
      var full' := if ok then full[p := History(full, p) + [now]] else full;
      if ok && p == peer { BoundedAfterGrant(h, max, window, now); }
      PlainRuleBound(full', max, window, ops[1..], peer);
      var rest := PlainTrace(full', max, window, ops[1..]);
      GrantedStep(Outcome(p, now, ok), rest, peer);
      assert h + Granted([Outcome(p, now, ok)] + rest, peer) == History(full', peer) + Granted(rest, peer);
    } else {
      PlainRuleBound(full, max, window, ops[1..], peer);
    }
  }

  lemma GrantedStep(o: Outcome, rest: seq<Outcome>, peer: Str)
    ensures Granted([o] + rest, peer) == (if o.granted && o.peer == peer then [o.now] else []) + Granted(rest, peer)
  {
    assert ([o] + rest)[1..] == rest;
  }

  /** In every interleaving of calls and cleanups with a nondecreasing clock, any window of the
      configured length holds at most the limit of granted calls of a peer. */
  lemma SlidingWindowBound(max: int, window: int, clock: int, ops: seq<Op>, peer: Str, t: int)
    requires max >= 0 && ClockFrom(clock, ops)
    ensures |InWindow(Granted(Trace(map[], max, window, ops), peer), window, t)| <= max
  {
    LimiterIsPlainRule(map[], map[], max, window, clock, ops);
    PlainRuleBound(map[], max, window, ops, peer);
    var g := Granted(PlainTrace(map[], max, window, ops), peer);
    assert History(map[], peer) + g == g;
  }

  lemma {:induction false} PlainDenialMeansFull(
    full: Histories, max: int, window: int, clock: int, ops: seq<Op>, i: nat)
    requires forall p :: UpTo(History(full, p), clock)
    requires ClockFrom(clock, ops) && i < |PlainTrace(full, max, window, ops)|
    ensures var trace := PlainTrace(full, max, window, ops);
            var o := trace[i];
            o.granted <==> |InWindow(History(full, o.peer) + Granted(trace[..i], o.peer), window, o.now)| < max
    decreases |ops|
  {
    hide UpTo; hide Recent; hide InWindow; hide Granted;
    var trace := PlainTrace(full, max, window, ops);
    if ops[0].OpAllow? {
      var p, now := ops[0].peer, ops[0].now;
      var ok := |Recent(History(full, p), window, now)| < max;
      var full' := if ok then full[p := History(full, p) + [now]] else full;
      forall q ensures UpTo(History(full', q), now) { UpToLater(full, full', p, q, clock, now, ok); }
      var o := trace[i];
      if i == 0 {
        assert trace[..0] == [];
        NothingGranted(p);
        assert History(full, p) + [] == History(full, p);
        RecentIsWindow(History(full, p), window, clock, now);
      } else {
        var rest := PlainTrace(full', max, window, ops[1..]);
        PlainDenialMeansFull(full', max, window, now, ops[1..], i - 1);
        assert trace[..i] == [trace[0]] + rest[..i - 1];
        GrantedStep(trace[0], rest[..i - 1], o.peer);
        assert History(full, o.peer) + Granted(trace[..i], o.peer) ==
               History(full', o.peer) + Granted(rest[..i - 1], o.peer);
      }
    } else {
      forall q ensures UpTo(History(full, q), ops[0].now) { UpToLater(full, full, [], q, clock, ops[0].now, false); }
      PlainDenialMeansFull(full, max, window, ops[0].now, ops[1..], i);
    }
  }

  lemma NothingGranted(peer: Str)
    ensures Granted([], peer) == []
  {
  }

  lemma UpToLater(full: Histories, full': Histories, p: Str, q: Str, clock: int, now: int, ok: bool)
    requires UpTo(History(full, q), clock) && clock <= now
    requires full' == if ok then full[p := History(full, p) + [now]] else full
    ensures UpTo(History(full', q), now)
  {
  }

  lemma {:induction false} RecentIsWindow(h: seq<int>, window: int, clock: int, now: int)
    requires UpTo(h, clock) && clock <= now
    ensures Recent(h, window, now) == InWindow(h, window, now)
  {
    FilterAgree(h, x => x > now - window, x => now - window < x <= now);
  }

  /** A call is denied exactly when the window ending at it already holds the limit of granted
      calls of that peer. */
  lemma DeniedExactlyWhenFull(max: int, window: int, clock: int, ops: seq<Op>, i: nat)
    requires ClockFrom(clock, ops) && i < |Trace(map[], max, window, ops)|
    ensures var trace := Trace(map[], max, window, ops);
            var o := trace[i];
            o.granted <==> |InWindow(Granted(trace[..i], o.peer), window, o.now)| < max
  {
    LimiterIsPlainRule(map[], map[], max, window, clock, ops);
    PlainDenialMeansFull(map[], max, window, clock, ops, i);
    var trace := Trace(map[], max, window, ops);
    var g := Granted(trace[..i], trace[i].peer);
    assert History(map[], trace[i].peer) + g == g;
  }
}
