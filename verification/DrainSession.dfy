/** One drain session's budgets, streaks and first-reason-wins stop
    (internal/gossipv1/drain_session.go). The clock reading of each call is a parameter. */
module DrainSessions {

  datatype StopReason =
    | NoReason | ConvergedNoWant | NoEligibleItems | RepeatedNoProgress
    | TimeBudget | ByteBudget | RoundBudget | ClientDisconnect | ClientSilence
    | FairnessYield | ProtocolFatal | StorageError | TransportBackoff

  datatype Limits = Limits(
    roundBudget: int, byteBudget: int, wallClock: int, noProgressCap: int, yieldEvery: int, fairness: bool)

  function Clamp(x: int): nat { if x < 0 then 0 else x }

  function Normalize(l: Limits): Limits
  {
    Limits(Clamp(l.roundBudget), Clamp(l.byteBudget), Clamp(l.wallClock),
           Clamp(l.noProgressCap), Clamp(l.yieldEvery), l.fairness)
  }

  datatype State = State(
    start: int, lastProgress: int, rounds: nat, requested: nat, transferred: nat, acknowledged: nat,
    sent: nat, received: nat, streak: nat, stop: StopReason)

  function Fresh(start: int): State { State(start, 0, 0, 0, 0, 0, 0, 0, 0, NoReason) }

  // ---- what each call does

  /** The first budget found exceeded becomes the stop reason; an earlier reason stays. */
  function CheckBudgets(s: State, l: Limits, now: int): State
  {
    if s.stop != NoReason then s
    else if l.roundBudget > 0 && s.rounds >= l.roundBudget then s.(stop := RoundBudget)
    else if l.wallClock > 0 && now - s.start >= l.wallClock then s.(stop := TimeBudget)
    else if l.byteBudget > 0 && s.sent + s.received >= l.byteBudget then s.(stop := ByteBudget)
    else s
  }

  function CanSend(s: State, l: Limits, bytes: int, now: int): (State, bool)
  {
    if bytes <= 0 then (s, true)
    else
      var s1 := CheckBudgets(s, l, now);
      if s1.stop != NoReason then (s1, false)
      else if l.byteBudget > 0 && s1.sent + s1.received + bytes >= l.byteBudget then (s1.(stop := ByteBudget), false)
      else (s1, true)
  }

  function CanStart(s: State, l: Limits, now: int): (State, bool)
  {
    var s1 := CheckBudgets(s, l, now);
    if s1.stop != NoReason then (s1, false)
    else if l.noProgressCap > 0 && s1.streak >= l.noProgressCap then (s1.(stop := RepeatedNoProgress), false)
    else if l.fairness && l.yieldEvery > 0 && s1.rounds > 0 && s1.rounds % l.yieldEvery == 0 then
      (s1.(stop := FairnessYield), false)
    else (s1, true)
  }

  datatype Op =
    | RecordSent(bytes: int, now: int)
    | RecordReceived(bytes: int, now: int)
    | AskSend(bytes: int, now: int)
    | RecordRequested(count: int, now: int)
    | RecordTransferred(count: int, now: int)
    | RecordAcknowledged(count: int, now: int)
    | CompleteRound(progressed: bool, now: int)
    | AskStart(now: int)
    | Stop(reason: StopReason)

  /** New state, and the answer of the two asking calls. */
  function Step(s: State, l: Limits, op: Op): (State, bool)
  {
    match op
    case RecordSent(b, now) => (if b <= 0 then s else CheckBudgets(s.(sent := s.sent + b), l, now), true)
    case RecordReceived(b, now) => (if b <= 0 then s else CheckBudgets(s.(received := s.received + b), l, now), true)
    case AskSend(b, now) => CanSend(s, l, b, now)
    case RecordRequested(n, now) => (if n <= 0 then s else s.(requested := s.requested + n, lastProgress := now), true)
    case RecordTransferred(n, now) =>
      (if n <= 0 then s else s.(transferred := s.transferred + n, lastProgress := now), true)
    case RecordAcknowledged(n, now) =>
      (if n <= 0 then s else s.(acknowledged := s.acknowledged + n, lastProgress := now), true)
    case CompleteRound(progressed, now) =>
      (if progressed then s.(rounds := s.rounds + 1, streak := 0, lastProgress := now)
       else s.(rounds := s.rounds + 1, streak := s.streak + 1), true)
    case AskStart(now) => CanStart(s, l, now)
    case Stop(reason) => (if reason == NoReason || s.stop != NoReason then s else s.(stop := reason), true)
  }

  class DrainSession {
    const limits: Limits
    var state: State

    constructor (start: int, l: Limits)
      ensures limits == Normalize(l) && state == Fresh(start)
    {
      limits := Normalize(l);
      state := Fresh(start);
    }

    method StopReasonForBudgetExceeded(now: int) returns (r: StopReason)
      modifies this
      ensures state == CheckBudgets(old(state), limits, now) && r == state.stop
    {
      if state.stop != NoReason { return state.stop; }
      if limits.roundBudget > 0 && state.rounds >= limits.roundBudget {
        state := state.(stop := RoundBudget);
        return state.stop;
      }
      if limits.wallClock > 0 && now - state.start >= limits.wallClock {
        state := state.(stop := TimeBudget);
        return state.stop;
      }
      if limits.byteBudget > 0 && state.sent + state.received >= limits.byteBudget {
        state := state.(stop := ByteBudget);
        return state.stop;
      }
      return NoReason;
    }

    method RecordBytesSent(bytes: int, now: int) returns (r: StopReason)
      modifies this
      ensures state == Step(old(state), limits, RecordSent(bytes, now)).0
      ensures r == if bytes <= 0 then NoReason else state.stop
    {
      if bytes <= 0 { return NoReason; }
      state := state.(sent := state.sent + bytes);
      r := StopReasonForBudgetExceeded(now);
    }

    method RecordBytesReceived(bytes: int, now: int) returns (r: StopReason)
      modifies this
      ensures state == Step(old(state), limits, RecordReceived(bytes, now)).0
      ensures r == if bytes <= 0 then NoReason else state.stop
    {
      if bytes <= 0 { return NoReason; }
      state := state.(received := state.received + bytes);
      r := StopReasonForBudgetExceeded(now);
    }

    /** A send that was allowed cannot itself reach the byte budget. */
    method CanSendBytes(bytes: int, now: int) returns (ok: bool, r: StopReason)
      modifies this
      ensures (state, ok) == Step(old(state), limits, AskSend(bytes, now))
      ensures r == if ok then NoReason else state.stop
      ensures ok && bytes > 0 && limits.byteBudget > 0 ==> state.sent + bytes + state.received < limits.byteBudget
    {
      if bytes <= 0 { return true, NoReason; }
      var reason := StopReasonForBudgetExceeded(now);
      if reason != NoReason { return false, reason; }
      if limits.byteBudget > 0 && state.sent + state.received + bytes >= limits.byteBudget {
        state := state.(stop := ByteBudget);
        return false, state.stop;
      }
      return true, NoReason;
    }

    method RecordRequestedItems(count: int, now: int)
      modifies this
      ensures state == Step(old(state), limits, RecordRequested(count, now)).0
    {
      if count > 0 { state := state.(requested := state.requested + count, lastProgress := now); }
    }

    method RecordTransferredItems(count: int, now: int)
      modifies this
      ensures state == Step(old(state), limits, RecordTransferred(count, now)).0
    {
      if count > 0 { state := state.(transferred := state.transferred + count, lastProgress := now); }
    }

    method RecordAcknowledgedItems(count: int, now: int)
      modifies this
      ensures state == Step(old(state), limits, RecordAcknowledged(count, now)).0
    {
      if count > 0 { state := state.(acknowledged := state.acknowledged + count, lastProgress := now); }
    }

    method Complete(progressed: bool, now: int)
      modifies this
      ensures state == Step(old(state), limits, CompleteRound(progressed, now)).0
    {
      state := state.(rounds := state.rounds + 1);
      if progressed {
        state := state.(streak := 0, lastProgress := now);
        return;
      }
      state := state.(streak := state.streak + 1);
    }

    method CanStartAnotherRound(now: int) returns (ok: bool, r: StopReason)
      modifies this
      ensures (state, ok) == Step(old(state), limits, AskStart(now))
      ensures r == if ok then NoReason else state.stop
    {
      if state.stop != NoReason { return false, state.stop; }
      var reason := StopReasonForBudgetExceeded(now);
      if reason != NoReason { return false, reason; }
      if limits.noProgressCap > 0 && state.streak >= limits.noProgressCap {
        state := state.(stop := RepeatedNoProgress);
        return false, state.stop;
      }
      if limits.fairness && limits.yieldEvery > 0 && state.rounds > 0 && state.rounds % limits.yieldEvery == 0 {
        state := state.(stop := FairnessYield);
        return false, state.stop;
      }
      return true, NoReason;
    }

    method StopWith(reason: StopReason)
      modifies this
      ensures state == Step(old(state), limits, Stop(reason)).0
    {
      if reason == NoReason { return; }
      if state.stop != NoReason { return; }
      state := state.(stop := reason);
    }
  }

  // ---- all call sequences

  function Run(s: State, l: Limits, ops: seq<Op>): State
    decreases |ops|
  {
    if ops == [] then s else Run(Step(s, l, ops[0]).0, l, ops[1..])
  }

  lemma {:induction false} RunAppend(s: State, l: Limits, a: seq<Op>, b: seq<Op>)
    ensures Run(s, l, a + b) == Run(Run(s, l, a), l, b)
    decreases |a|
  {
    hide Step;
    if a == [] {
      assert a + b == b;
    } else {
      assert (a + b)[1..] == a[1..] + b;
      RunAppend(Step(s, l, a[0]).0, l, a[1..], b);
    }
  }

  /** The first stop reason is the last one, whatever is called afterwards. */
  lemma {:induction false} FirstReasonWins(s: State, l: Limits, ops: seq<Op>)
    requires s.stop != NoReason
    ensures Run(s, l, ops).stop == s.stop
    decreases |ops|
  {
    if ops != [] { FirstReasonWins(Step(s, l, ops[0]).0, l, ops[1..]); }
  }

  /** Once a run has stopped, no continuation of it changes the reason. */
  lemma StopIsPermanent(s: State, l: Limits, a: seq<Op>, b: seq<Op>)
    requires Run(s, l, a).stop != NoReason
    ensures Run(s, l, a + b).stop == Run(s, l, a).stop
  {
    hide Run;
    RunAppend(s, l, a, b);
    FirstReasonWins(Run(s, l, a), l, b);
  }

  ghost predicate UnderByteBudget(s: State, l: Limits)
  {
    s.stop == NoReason && l.byteBudget > 0 ==> s.sent + s.received < l.byteBudget
  }

  /** While no reason is set, the recorded bytes are below a positive byte budget. */
  lemma {:induction false} BytesStayUnderBudget(s: State, l: Limits, ops: seq<Op>)
    requires UnderByteBudget(s, l)
    ensures UnderByteBudget(Run(s, l, ops), l)
    decreases |ops|
  {
    if ops != [] { BytesStayUnderBudget(Step(s, l, ops[0]).0, l, ops[1..]); }
  }

  /** A send passed by `CanSendBytes` and then recorded does not stop the session for bytes. */
  lemma AllowedSendIsNotTheLast(s: State, l: Limits, bytes: int, now: int, later: int)
    requires CanSend(s, l, bytes, now).1 && bytes > 0
    ensures Step(CanSend(s, l, bytes, now).0, l, RecordSent(bytes, later)).0.stop in {NoReason, TimeBudget}
  {
  }

  /** A check stops a running session for the first budget it finds reached, and for nothing else. */
  lemma BudgetsMean(s: State, l: Limits, now: int)
    requires s.stop == NoReason
    ensures var s', rounds, time, bytes :=
              CheckBudgets(s, l, now), l.roundBudget > 0 && s.rounds >= l.roundBudget,
              l.wallClock > 0 && now >= s.start + l.wallClock, l.byteBudget > 0 && s.sent + s.received >= l.byteBudget;
            && s'.(stop := NoReason) == s
            && (s'.stop == NoReason <==> !rounds && !time && !bytes)
            && (s'.stop == RoundBudget <==> rounds) && (s'.stop == TimeBudget <==> !rounds && time)
            && (s'.stop == ByteBudget <==> !rounds && !time && bytes)
  {
  }

  /** Another round may start iff nothing stopped the session, no budget is reached, the streak is
      below its cap and the session is not at a yield point. */
  lemma StartMeans(s: State, l: Limits, now: int)
    ensures var (s', ok) := CanStart(s, l, now);
            && (ok <==>
                  && s.stop == NoReason && (l.roundBudget > 0 ==> s.rounds < l.roundBudget)
                  && (l.wallClock > 0 ==> now < s.start + l.wallClock)
                  && (l.byteBudget > 0 ==> s.sent + s.received < l.byteBudget)
                  && (l.noProgressCap > 0 ==> s.streak < l.noProgressCap)
                  && (l.fairness && l.yieldEvery > 0 && s.rounds > 0 ==> s.rounds % l.yieldEvery != 0))
            && (ok ==> s' == s) && (!ok ==> s'.stop != NoReason && s'.(stop := s.stop) == s)
  {
  }

  /** Bytes may be sent iff there are none, or nothing stopped the session, no budget is reached and
      the bytes leave the byte budget unreached. */
  lemma SendMeans(s: State, l: Limits, bytes: int, now: int)
    ensures var (s', ok) := CanSend(s, l, bytes, now);
            && (bytes <= 0 ==> ok)
            && (bytes > 0 ==>
                  (ok <==>
                     && s.stop == NoReason && (l.roundBudget > 0 ==> s.rounds < l.roundBudget)
                     && (l.wallClock > 0 ==> now < s.start + l.wallClock)
                     && (l.byteBudget > 0 ==> s.sent + s.received + bytes < l.byteBudget)))
            && (ok ==> s' == s) && (!ok ==> s'.stop != NoReason && s'.(stop := s.stop) == s)
  {
  }

  /** A stop with a reason stops a running session for that reason, and nothing else changes. */
  lemma StopMeans(s: State, l: Limits, reason: StopReason)
    ensures Step(s, l, Stop(reason)).0 == s.(stop := if s.stop == NoReason then reason else s.stop)
  {
  }

  /** Once the time is up, whatever call checks the clock finds the session stopped or stops it. */
  lemma TimeIsUp(s: State, l: Limits, op: Op)
    requires l.wallClock > 0 && !op.Stop? && !op.CompleteRound? && op.now >= s.start + l.wallClock
    requires (op.RecordSent? || op.RecordReceived? || op.AskSend? ==> op.bytes > 0)
    requires !op.RecordRequested? && !op.RecordTransferred? && !op.RecordAcknowledged?
    ensures Step(s, l, op).0.stop != NoReason && (op.AskStart? || op.AskSend? ==> !Step(s, l, op).1)
  {
  }

  /** Configured limits count when positive and are off otherwise. */
  lemma NormalizeMeans(l: Limits)
    ensures var n := Normalize(l);
            && n.fairness == l.fairness
            && (l.roundBudget > 0 ==> n.roundBudget == l.roundBudget) && (l.roundBudget <= 0 ==> n.roundBudget == 0)
            && (l.byteBudget > 0 ==> n.byteBudget == l.byteBudget) && (l.byteBudget <= 0 ==> n.byteBudget == 0)
            && (l.wallClock > 0 ==> n.wallClock == l.wallClock) && (l.wallClock <= 0 ==> n.wallClock == 0)
            && (l.noProgressCap > 0 ==> n.noProgressCap == l.noProgressCap)
            && (l.noProgressCap <= 0 ==> n.noProgressCap == 0)
            && (l.yieldEvery > 0 ==> n.yieldEvery == l.yieldEvery) && (l.yieldEvery <= 0 ==> n.yieldEvery == 0)
  {
  }

  // ---- the counters

  /** What the calls report, added up; negative reports count nothing. */
  datatype Totals = Totals(
    requested: nat, transferred: nat, acknowledged: nat, sent: nat, received: nat, rounds: nat)

  function Reported(op: Op): Totals
  {
    match op
    case RecordRequested(n, _) => Totals(Clamp(n), 0, 0, 0, 0, 0)
    case RecordTransferred(n, _) => Totals(0, Clamp(n), 0, 0, 0, 0)
    case RecordAcknowledged(n, _) => Totals(0, 0, Clamp(n), 0, 0, 0)
    case RecordSent(b, _) => Totals(0, 0, 0, Clamp(b), 0, 0)
    case RecordReceived(b, _) => Totals(0, 0, 0, 0, Clamp(b), 0)
    case CompleteRound(_, _) => Totals(0, 0, 0, 0, 0, 1)
    case _ => Totals(0, 0, 0, 0, 0, 0)
  }

  function Add(a: Totals, b: Totals): Totals
  {
    Totals(a.requested + b.requested, a.transferred + b.transferred, a.acknowledged + b.acknowledged,
           a.sent + b.sent, a.received + b.received, a.rounds + b.rounds)
  }

  function Total(ops: seq<Op>): Totals
  {
    if ops == [] then Totals(0, 0, 0, 0, 0, 0) else Add(Reported(ops[0]), Total(ops[1..]))
  }

  function TotalsOf(s: State): Totals
  {
    Totals(s.requested, s.transferred, s.acknowledged, s.sent, s.received, s.rounds)
  }

  /** Rounds without progress at the end of the calls, and the time of the last progress. */
  function Trailing(ops: seq<Op>, streak: nat): nat
  {
    if ops == [] then streak
    else Trailing(ops[1..], if !ops[0].CompleteRound? then streak else if ops[0].progressed then 0 else streak + 1)
  }

  predicate Progresses(op: Op)
  {
    match op
    case CompleteRound(progressed, _) => progressed
    case RecordRequested(n, _) => n > 0
    case RecordTransferred(n, _) => n > 0
    case RecordAcknowledged(n, _) => n > 0
    case _ => false
  }

  function LastProgress(ops: seq<Op>, time: int): int
  {
    if ops == [] then time else LastProgress(ops[1..], if Progresses(ops[0]) then ops[0].now else time)
  }

  /** Over every call sequence the counters are the sums of what was reported, stopped or not. */
  lemma {:induction false} CountersAddUp(s: State, l: Limits, ops: seq<Op>)
    ensures var s' := Run(s, l, ops);
            && TotalsOf(s') == Add(TotalsOf(s), Total(ops)) && s'.start == s.start
            && s'.streak == Trailing(ops, s.streak) && s'.lastProgress == LastProgress(ops, s.lastProgress)
    decreases |ops|
  {
    hide Step; hide Reported; hide Progresses;
    if ops != [] {
      OneCounts(s, l, ops[0]);
      CountersAddUp(Step(s, l, ops[0]).0, l, ops[1..]);
    }
  }

  lemma OneCounts(s: State, l: Limits, op: Op)
    ensures var s' := Step(s, l, op).0;
            && TotalsOf(s') == Add(TotalsOf(s), Reported(op)) && s'.start == s.start
            && s'.streak == (if !op.CompleteRound? then s.streak else if op.progressed then 0 else s.streak + 1)
            && s'.lastProgress == (if Progresses(op) then op.now else s.lastProgress)
  {
  }

  // ---- limits

  /** Every completed round was opened by a round check that said yes. */
  ghost predicate Gated(s: State, l: Limits, inRound: bool, ops: seq<Op>)
    decreases |ops|
  {
    ops != [] ==>
      var (s', answer) := Step(s, l, ops[0]);
      && (ops[0].CompleteRound? ==> inRound)
      && Gated(s', l, if ops[0].CompleteRound? then false else inRound || (ops[0].AskStart? && answer), ops[1..])
  }

  ghost predicate WithinLimits(s: State, l: Limits)
  {
    && (l.roundBudget > 0 ==> s.rounds <= l.roundBudget)
    && (l.fairness && l.yieldEvery > 0 ==> s.rounds <= l.yieldEvery)
    && (l.noProgressCap > 0 ==> s.streak <= l.noProgressCap)
  }

  /** Within limits, and with room for one more round while a round is open. */
  ghost predicate RoomForRound(s: State, l: Limits, inRound: bool)
  {
    && WithinLimits(s, l)
    && (inRound ==>
          && (l.roundBudget > 0 ==> s.rounds < l.roundBudget)
          && (l.fairness && l.yieldEvery > 0 ==> s.rounds < l.yieldEvery)
          && (l.noProgressCap > 0 ==> s.streak < l.noProgressCap))
  }

  lemma YesLeavesRoom(s: State, l: Limits, now: int)
    requires WithinLimits(s, l) && CanStart(s, l, now).1
    ensures RoomForRound(CanStart(s, l, now).0, l, true)
  {
    if l.fairness && l.yieldEvery > 0 && s.rounds == l.yieldEvery { assert s.rounds % l.yieldEvery == 0; }
  }

  /** A gated run never passes an enabled round budget, yield interval or no-progress cap. */
  lemma {:induction false} GatedRunsStayWithinLimits(s: State, l: Limits, inRound: bool, ops: seq<Op>)
    requires RoomForRound(s, l, inRound) && Gated(s, l, inRound, ops)
    ensures WithinLimits(Run(s, l, ops), l)
    decreases |ops|
  {
    if ops != [] {
      var (s', answer) := Step(s, l, ops[0]);
      if ops[0].AskStart? && answer { YesLeavesRoom(s, l, ops[0].now); }
      GatedRunsStayWithinLimits(
        s', l, if ops[0].CompleteRound? then false else inRound || (ops[0].AskStart? && answer), ops[1..]);
    }
  }

  /** Rounds completed although no round check had said yes since the last one. */
  function Ungated(s: State, l: Limits, inRound: bool, ops: seq<Op>): nat
    decreases |ops|
  {
    if ops == [] then 0
    else
      var (s', answer) := Step(s, l, ops[0]);
      (if ops[0].CompleteRound? && !inRound then 1 else 0)
      + Ungated(s', l, if ops[0].CompleteRound? then false else inRound || (ops[0].AskStart? && answer), ops[1..])
  }

  /** How far limits can be passed after `k` ungated rounds. */
  ghost predicate Within(s: State, l: Limits, inRound: bool, k: nat)
  {
    var more := if inRound then 1 else 0;
    && (l.roundBudget > 0 ==> s.rounds + more <= l.roundBudget + k)
    && (l.noProgressCap > 0 ==> s.streak + more <= l.noProgressCap + k)
    && (l.fairness && l.yieldEvery > 0 ==> s.rounds + more <= l.yieldEvery * (1 + k))
  }

  lemma WithinStep(s: State, l: Limits, inRound: bool, k: nat, op: Op)
    requires Within(s, l, inRound, k)
    ensures var (s', answer) := Step(s, l, op);
            Within(s', l, if op.CompleteRound? then false else inRound || (op.AskStart? && answer),
                   k + if op.CompleteRound? && !inRound then 1 else 0)
  {
    if l.fairness && l.yieldEvery > 0 {
      YieldMultiples(s.rounds, l.yieldEvery, k);
      assert l.yieldEvery * (1 + (k + 1)) == l.yieldEvery * (1 + k) + l.yieldEvery;
    }
  }

  /** A count at a multiple of the interval is not below the next one by a fraction. */
  lemma YieldMultiples(rounds: nat, every: int, k: nat)
    requires every > 0
    ensures rounds == every * (1 + k) ==> rounds % every == 0
    ensures every * (1 + k) > 0
  {
    if rounds == every * (1 + k) { MultipleMod(every, 1 + k, 0); }
    MultiplePositive(every, 1 + k);
  }

  lemma MultipleMod(every: int, m: int, rest: int)
    requires 0 <= rest < every
    ensures (every * m + rest) % every == rest
  {
    var n := every * m + rest;
    var q, r := n / every, n % every;
    assert n == every * q + r;
    var k := m - q;
    assert every * k == r - rest;
    if k >= 1 { Scaled(every, 1, k); }
    if k <= -1 { Scaled(every, k, -1); }
  }

  lemma Scaled(every: int, a: int, b: int)
    requires every > 0 && a <= b
    ensures every * a <= every * b
  {
  }

  lemma MultiplePositive(every: int, m: nat)
    requires every > 0 && m > 0
    ensures every * m > 0
  {
    Scaled(every, 1, m);
  }

  /** Over all call sequences: k ungated rounds let rounds and streak pass their limits by at most
      k, and the session pass at most k yield points. */
  lemma {:induction false} UngatedBound(s: State, l: Limits, inRound: bool, k: nat, ops: seq<Op>)
    requires Within(s, l, inRound, k)
    ensures var s', n := Run(s, l, ops), k + Ungated(s, l, inRound, ops);
            && (l.roundBudget > 0 ==> s'.rounds <= l.roundBudget + n)
            && (l.noProgressCap > 0 ==> s'.streak <= l.noProgressCap + n)
            && (l.fairness && l.yieldEvery > 0 ==> s'.rounds <= l.yieldEvery * (1 + n))
    decreases |ops|
  {
    hide Step;
    if ops != [] {
      WithinStep(s, l, inRound, k, ops[0]);
      var (s', answer) := Step(s, l, ops[0]);
      UngatedBound(
        s', l, if ops[0].CompleteRound? then false else inRound || (ops[0].AskStart? && answer),
        k + if ops[0].CompleteRound? && !inRound then 1 else 0, ops[1..]);
    }
  }

  lemma FreshIsWithinLimits(start: int, l: Limits)
    ensures RoomForRound(Fresh(start), Normalize(l), false) && UnderByteBudget(Fresh(start), Normalize(l))
  {
  }

  /** Every limit off, as the WebSocket handler sets them, and not stopped. */
  predicate Unlimited(s: State, l: Limits)
  {
    && l.roundBudget == 0 && l.byteBudget == 0 && l.wallClock == 0 && l.noProgressCap == 0 && !l.fairness
    && s.stop == NoReason
  }

  lemma UnlimitedStep(s: State, l: Limits, op: Op)
    requires Unlimited(s, l) && !op.Stop?
    ensures Unlimited(Step(s, l, op).0, l) && Step(s, l, op).1
  {
  }

  /** Without limits only `Stop` ends a session, however long it runs. */
  lemma {:induction false} DisabledLimitsNeverStop(s: State, l: Limits, ops: seq<Op>)
    requires Unlimited(s, l) && forall i | 0 <= i < |ops| :: !ops[i].Stop?
    ensures Unlimited(Run(s, l, ops), l)
    decreases |ops|
  {
    if ops != [] {
      UnlimitedStep(s, l, ops[0]);
      DisabledLimitsNeverStop(Step(s, l, ops[0]).0, l, ops[1..]);
    }
  }

  /** The gate is needed: rounds completed without asking pass any budget. */
  lemma {:induction false} UngatedRoundsPassTheBudget(s: State, l: Limits, n: nat)
    ensures Run(s, l, seq(n, _ => CompleteRound(false, 0))).rounds == s.rounds + n
    ensures Run(s, l, seq(n, _ => CompleteRound(false, 0))).stop == s.stop
    decreases n
  {
    var ops := seq(n, _ => CompleteRound(false, 0));
    if n > 0 {
      assert ops[1..] == seq(n - 1, _ => CompleteRound(false, 0));
      UngatedRoundsPassTheBudget(Step(s, l, ops[0]).0, l, n - 1);
    }
  }
}
