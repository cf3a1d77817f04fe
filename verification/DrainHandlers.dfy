/** What the WebSocket handlers do to a drain session's budgets (internal/api/ws.go): the calls
    each of them makes, in order, and the limits that hold over any sequence of them. */
module DrainHandlers {
  import opened ByteStrings
  import D = DrainSessions

  /** How a handler ends: a frame went out, nothing to send, the session stops, or it breaks. */
  datatype Verdict = Sent | Idle | Halted(reason: D.StopReason) | LookupFailed | NotEncodable

  /** `sendEnvelope`: a frame of `size` bytes, if it can be encoded, under the byte budget and
      through a send queue that may be full. */
  function SendFrame(s: D.State, l: D.Limits, size: Option<nat>, queued: bool, clock: int): (D.State, Verdict)
  {
    if size.None? then (s, NotEncodable)
    else
      var (s1, ok) := D.CanSend(s, l, size.value, clock);
      if !ok then (s1, Halted(s1.stop))
      else if !queued then (D.Step(s1, l, D.Stop(D.TransportBackoff)).0, Halted(D.TransportBackoff))
      else
        var s2 := D.Step(s1, l, D.RecordSent(size.value, clock)).0;
        (s2, if size.value > 0 && s2.stop != D.NoReason then Halted(s2.stop) else Sent)
  }

  /** `sendDrainSummary`: `listed` unless the stores fail, `empty` when nothing is pending. */
  function SummaryRound(
    s: D.State, l: D.Limits, listed: bool, empty: bool, size: Option<nat>, queued: bool, clock: int): (D.State, Verdict)
  {
    var (s1, ok) := D.CanStart(s, l, clock);
    if !ok then (s1, Halted(s1.stop))
    else if !listed then (s1, Halted(D.StorageError))
    else
      var s2 := if empty then D.Step(s1, l, D.CompleteRound(false, clock)).0 else s1;
      SendFrame(s2, l, size, queued, clock)
  }

  /** Whether a request of `n` ids, `found` of them servable, is answered by a transfer attempt. */
  predicate Serves(s: D.State, l: D.Limits, n: nat, found: Option<nat>, clock: int)
  {
    && n > 0 && D.CanStart(D.Step(s, l, D.RecordRequested(n, clock)).0, l, clock).1
    && found.Some? && found.value > 0
  }

  /** `handleRequest`: `found` is missing when a lookup fails. */
  function RequestRound(
    s: D.State, l: D.Limits, n: nat, found: Option<nat>, size: Option<nat>, queued: bool, clock: int)
    : (D.State, Verdict)
  {
    var s0 := D.Step(s, l, D.RecordRequested(n, clock)).0;
    if n == 0 then (D.Step(s0, l, D.CompleteRound(false, clock)).0, Idle)
    else
      var (s1, ok) := D.CanStart(s0, l, clock);
      if !ok then (s1, Halted(s1.stop))
      else if found.None? then (s1, LookupFailed)
      else
        var s2 := D.Step(s1, l, D.RecordTransferred(found.value, clock)).0;
        if found.value == 0 then (D.Step(s2, l, D.CompleteRound(false, clock)).0, Idle)
        else SendFrame(s2, l, size, queued, clock)
  }

  /** `handleReceipt` once the acknowledgements are stored, `count` of them new. */
  function ReceiptRound(
    s: D.State, l: D.Limits, count: nat, named: bool, listed: bool, empty: bool, size: Option<nat>, queued: bool,
    clock: int)
    : (D.State, Verdict)
  {
    var s1 := Settle(s, l, count, clock);
    if !named then (s1, Idle)
    else if count == 0 then
      var (s2, ok) := D.CanStart(s1, l, clock);
      (s2, if ok then Idle else Halted(s2.stop))
    else SummaryRound(s1, l, listed, empty, size, queued, clock)
  }

  /** A receipt completes the round, with progress when something is new. */
  function Settle(s: D.State, l: D.Limits, count: nat, clock: int): D.State
  {
    D.Step(D.Step(s, l, D.RecordAcknowledged(count, clock)).0, l, D.CompleteRound(count != 0, clock)).0
  }

  /** `handleSummary`, on the client's own summary: `want` ids are requested from it, none
      completes a round; missing when a lookup fails. */
  function OfferRound(
    s: D.State, l: D.Limits, want: Option<nat>, size: Option<nat>, queued: bool, clock: int): (D.State, Verdict)
  {
    if want.None? then (s, Halted(D.StorageError))
    else
      var s1 := D.Step(s, l, D.RecordRequested(want.value, clock)).0;
      var s2 := if want.value == 0 then D.Step(s1, l, D.CompleteRound(false, clock)).0 else s1;
      SendFrame(s2, l, size, queued, clock)
  }

  /** `handleTransfer`, on objects the client uploads: a round, with progress when some are
      accepted, and a receipt; `accepted` is missing when a lookup fails. */
  function UploadRound(
    s: D.State, l: D.Limits, accepted: Option<nat>, size: Option<nat>, queued: bool, clock: int): (D.State, Verdict)
  {
    if accepted.None? then (s, LookupFailed)
    else
      var s1 := D.Step(s, l, D.RecordTransferred(accepted.value, clock)).0;
      SendFrame(D.Step(s1, l, D.CompleteRound(accepted.value != 0, clock)).0, l, size, queued, clock)
  }

  // ---- a transfer goes out exactly when something is servable

  /** A request is answered by a transfer iff it names something, a round may start, the lookups
      work, something is servable, and the frame can be sent. */
  lemma TransferIffServable(
    s: D.State, l: D.Limits, n: nat, found: Option<nat>, size: Option<nat>, queued: bool, clock: int)
    ensures var (s', v) := RequestRound(s, l, n, found, size, queued, clock);
            v.Sent? <==>
              && Serves(s, l, n, found, clock) && size.Some? && queued
              && (l.byteBudget > 0 && size.value > 0 ==> s.sent + s.received + size.value < l.byteBudget)
    ensures var (s', v) := RequestRound(s, l, n, found, size, queued, clock);
            var allowed := D.CanStart(D.Step(s, l, D.RecordRequested(n, clock)).0, l, clock).1;
            && s'.requested == s.requested + n && (v.Sent? ==> s'.transferred == s.transferred + found.value)
            && (v.Sent? ==> s'.sent == s.sent + size.value && s'.rounds == s.rounds)
            && (v.Idle? <==> n == 0 || (allowed && found == Some(0))) && (v.Idle? ==> s'.rounds == s.rounds + 1)
            && (v.LookupFailed? <==> n > 0 && allowed && found.None?)
  {
  }

  /** A frame of some bytes goes out iff it can be encoded and queued, nothing stopped the session
      and no budget is reached, the byte budget not even by it. */
  predicate Sendable(s: D.State, l: D.Limits, size: Option<nat>, queued: bool, clock: int)
  {
    && size.Some? && queued && s.stop == D.NoReason && (l.roundBudget > 0 ==> s.rounds < l.roundBudget)
    && (l.wallClock > 0 ==> clock < s.start + l.wallClock)
    && (l.byteBudget > 0 ==> s.sent + s.received + size.value < l.byteBudget)
  }

  /** When each handler's frame goes out, and what is counted then. */
  lemma SentIff(s: D.State, l: D.Limits, size: Option<nat>, queued: bool, clock: int)
    requires size.Some? ==> size.value > 0
    ensures var (s', v) := SendFrame(s, l, size, queued, clock);
            && (v.Sent? <==> Sendable(s, l, size, queued, clock))
            && (v.Sent? ==> s' == s.(sent := s.sent + size.value))
            && (v.NotEncodable? <==> size.None?) && !v.Idle? && !v.LookupFailed? && (v.Halted? ==> v.reason == s'.stop)
            && (Sendable(s, l, size, true, clock) && !queued ==> v == Halted(D.TransportBackoff))
  {
  }

  /** The summary goes out iff a round may start, the stores work, and the frame can be sent after
      the round that an empty summary completes. */
  lemma SummaryIff(
    s: D.State, l: D.Limits, listed: bool, empty: bool, size: Option<nat>, queued: bool, clock: int)
    requires size.Some? ==> size.value > 0
    ensures var (s', v) := SummaryRound(s, l, listed, empty, size, queued, clock);
            && (v.Sent? <==>
                  && D.CanStart(s, l, clock).1 && listed && size.Some? && queued
                  && (empty && l.roundBudget > 0 ==> s.rounds + 1 < l.roundBudget)
                  && (l.byteBudget > 0 ==> s.sent + s.received + size.value < l.byteBudget))
            && (v.Sent? ==> s'.rounds == s.rounds + (if empty then 1 else 0) && s'.sent == s.sent + size.value)
            && (D.CanStart(s, l, clock).1 && !listed ==> v == Halted(D.StorageError))
  {
    D.StartMeans(s, l, clock);
  }

  /** The request that answers a client's summary goes out iff the lookups work and the frame can be
      sent, after the round that an empty request completes. */
  lemma OfferIff(s: D.State, l: D.Limits, want: Option<nat>, size: Option<nat>, queued: bool, clock: int)
    requires size.Some? ==> size.value > 0
    ensures var (s', v) := OfferRound(s, l, want, size, queued, clock);
            && (v.Sent? <==>
                  && want.Some? && Sendable(s, l, size, queued, clock)
                  && (want.value == 0 && l.roundBudget > 0 ==> s.rounds + 1 < l.roundBudget))
            && (v.Sent? ==> && s'.requested == s.requested + want.value && s'.sent == s.sent + size.value
                            && s'.rounds == s.rounds + (if want.value == 0 then 1 else 0))
            && (want.None? ==> v == Halted(D.StorageError) && s' == s) && !v.Idle?
  {
  }

  /** The receipt for an upload goes out iff the lookups work and the frame can be sent after the
      round the upload completes. */
  lemma UploadIff(s: D.State, l: D.Limits, accepted: Option<nat>, size: Option<nat>, queued: bool, clock: int)
    requires size.Some? ==> size.value > 0
    ensures var (s', v) := UploadRound(s, l, accepted, size, queued, clock);
            && (v.Sent? <==>
                  && accepted.Some? && Sendable(s, l, size, queued, clock)
                  && (l.roundBudget > 0 ==> s.rounds + 1 < l.roundBudget))
            && (v.Sent? ==> && s'.transferred == s.transferred + accepted.value && s'.sent == s.sent + size.value
                            && s'.rounds == s.rounds + 1
                            && s'.streak == (if accepted.value > 0 then 0 else s.streak + 1))
            && (accepted.None? ==> v == LookupFailed && s' == s) && !v.Idle?
  {
  }

  /** A receipt counts its new acknowledgements and completes a round; the next summary goes out iff
      there are new ones, there is a recipient, and a summary can. */
  lemma ReceiptIff(
    s: D.State, l: D.Limits, count: nat, named: bool, listed: bool, empty: bool, size: Option<nat>, queued: bool,
    clock: int)
    requires size.Some? ==> size.value > 0
    ensures var s1 := Settle(s, l, count, clock);
            var (s', v) := ReceiptRound(s, l, count, named, listed, empty, size, queued, clock);
            && s1.acknowledged == s.acknowledged + count && s1.rounds == s.rounds + 1
            && s1.streak == (if count > 0 then 0 else s.streak + 1) && s1.stop == s.stop
            && (v.Sent? <==> named && count > 0 && SummaryRound(s1, l, listed, empty, size, queued, clock).1.Sent?)
            && (v.Idle? <==> !named || (count == 0 && D.CanStart(s1, l, clock).1))
  {
    hide D.CanStart;
    SummaryNeverIdle(s, l, count, listed, empty, size, queued, clock);
  }

  lemma SummaryNeverIdle(
    s: D.State, l: D.Limits, count: nat, listed: bool, empty: bool, size: Option<nat>, queued: bool, clock: int)
    ensures !SummaryRound(Settle(s, l, count, clock), l, listed, empty, size, queued, clock).1.Idle?
  {
  }

  lemma UnlimitedHandlers(s: D.State, l: D.Limits, size: Option<nat>, clock: int)
    requires D.Unlimited(s, l) && size.Some?
    ensures var (s', v) := SendFrame(s, l, size, true, clock); v.Sent? && D.Unlimited(s', l)
    ensures forall empty: bool :: var (s', v) := SummaryRound(s, l, true, empty, size, true, clock);
              v.Sent? && D.Unlimited(s', l)
    ensures forall count: nat :: D.Unlimited(Settle(s, l, count, clock), l)
  {
  }

  lemma UnlimitedAnswers(s: D.State, l: D.Limits, n: nat, size: Option<nat>, clock: int)
    requires D.Unlimited(s, l) && size.Some?
    ensures var (s', v) := OfferRound(s, l, Some(n), size, true, clock); v.Sent? && D.Unlimited(s', l)
    ensures var (s', v) := UploadRound(s, l, Some(n), size, true, clock); v.Sent? && D.Unlimited(s', l)
  {
  }

  lemma UnlimitedRequest(s: D.State, l: D.Limits, n: nat, found: nat, size: Option<nat>, clock: int)
    requires D.Unlimited(s, l) && n > 0 && (found > 0 ==> size.Some?)
    ensures Serves(s, l, n, Some(found), clock) <==> found > 0
    ensures var (s', v) := RequestRound(s, l, n, Some(found), size, true, clock);
            v == (if found > 0 then Sent else Idle) && D.Unlimited(s', l)
  {
  }

  // ---- limits over handler calls

  /** What the read pump and the handlers do, in the order they do it. */
  datatype Call =
    | Inbound(bytes: int, clock: int)
    | Greet(listed: bool, empty: bool, size: Option<nat>, queued: bool, clock: int)
    | Request(n: nat, found: Option<nat>, size: Option<nat>, queued: bool, clock: int)
    | Receipt(stored: bool, count: nat, named: bool, listed: bool, empty: bool, size: Option<nat>, queued: bool,
              clock: int)
    | Offer(want: Option<nat>, size: Option<nat>, queued: bool, clock: int)
    | Upload(accepted: Option<nat>, size: Option<nat>, queued: bool, clock: int)

  function CallRound(s: D.State, l: D.Limits, call: Call): (D.State, Verdict)
  {
    match call
    case Inbound(bytes, clock) =>
      var s1 := D.Step(s, l, D.RecordReceived(bytes, clock)).0;
      (s1, if bytes > 0 && s1.stop != D.NoReason then Halted(s1.stop) else Idle)
    case Greet(listed, empty, size, queued, clock) => SummaryRound(s, l, listed, empty, size, queued, clock)
    case Request(n, found, size, queued, clock) => RequestRound(s, l, n, found, size, queued, clock)
    case Receipt(stored, count, named, listed, empty, size, queued, clock) =>
      if stored then ReceiptRound(s, l, count, named, listed, empty, size, queued, clock)
      else (s, Halted(D.StorageError))
    case Offer(want, size, queued, clock) => OfferRound(s, l, want, size, queued, clock)
    case Upload(accepted, size, queued, clock) => UploadRound(s, l, accepted, size, queued, clock)
  }

  /** The read pump goes on. */
  predicate Continues(v: Verdict) { v.Sent? || v.Idle? }

  /** No frame is empty. */
  predicate Sized(call: Call) { call.Inbound? || (call.size.Some? ==> call.size.value > 0) }

  /** The state after the calls, or after the first one that ends the session. */
  function RunCalls(s: D.State, l: D.Limits, calls: seq<Call>): D.State
    decreases |calls|
  {
    if calls == [] then s
    else
      var (s1, v) := CallRound(s, l, calls[0]);
      if Continues(v) then RunCalls(s1, l, calls[1..]) else s1
  }

  /** What the adapter and `processEvents` hold about a session: a chunk has come, HELLO was seen, a
      receipt in the current chunk passes, a transfer was served in the current chunk. A whole
      chunk is parsed before its first event is handled. */
  datatype Pump = Pump(begun: bool, greeted: bool, open: bool, served: bool)

  const SILENT := Pump(false, false, false, false)

  predicate Admits(a: Pump, call: Call)
  {
    match call
    case Inbound(_, _) => true
    case Greet(_, _, _, _, _) => a.begun && !a.greeted
    case Receipt(_, _, _, _, _, _, _, _) => a.greeted && a.open
    case _ => a.greeted
  }

  function PumpAfter(s: D.State, l: D.Limits, a: Pump, call: Call): Pump
  {
    match call
    case Inbound(_, _) => Pump(true, a.greeted, a.open || a.served, false)
    case Greet(_, _, _, _, _) => a.(greeted := true)
    case Request(n, found, _, _, clock) => a.(served := a.served || Serves(s, l, n, found, clock))
    case Receipt(_, _, _, _, _, _, _, _) => a.(open := false)
    case _ => a
  }

  /** The calls a client can cause by what it sends. */
  predicate Receivable(s: D.State, l: D.Limits, a: Pump, calls: seq<Call>)
    decreases |calls|
  {
    calls != [] ==>
      && Admits(a, calls[0]) && Sized(calls[0])
      && var (s1, v) := CallRound(s, l, calls[0]);
         Continues(v) ==> Receivable(s1, l, PumpAfter(s, l, a, calls[0]), calls[1..])
  }

  /** What a session did without asking: empty requests in a row, no-progress rounds since the
      streak was last checked or reset, and rounds completed without a yes since the round
      before. `armed` says that the last round check said yes and no round was completed since. */
  datatype Tally = Tally(armed: bool, empties: nat, quiet: nat, unasked: nat)

  const NOTHING := Tally(false, 0, 0, 0)

  function One(b: bool): nat { if b then 1 else 0 }

  /** The call's own rounds counted in. */
  function Count(t: Tally, call: Call): Tally
  {
    match call
    case Request(n, _, _, _, _) =>
      if n == 0 then Tally(t.armed, t.empties + 1, t.quiet + 1, t.unasked + One(!t.armed)) else t
    case Receipt(stored, count, named, _, _, _, _, _) =>
      if !stored then t
      else Tally(t.armed, t.empties + One(!named), t.quiet + One(!named && count == 0), t.unasked + One(!t.armed))
    case Offer(want, _, _, _) =>
      if want == Some(0) then t.(quiet := t.quiet + 1, unasked := t.unasked + One(!t.armed)) else t
    case Upload(accepted, _, _, _) =>
      if accepted.None? then t
      else t.(quiet := t.quiet + One(accepted.value == 0), unasked := t.unasked + One(!t.armed))
    case _ => t
  }

  /** The tally when the session goes on after the call. */
  function Next(t: Tally, call: Call): Tally
  {
    var c := Count(t, call);
    match call
    case Inbound(bytes, _) => if bytes > 0 then c.(empties := 0) else c
    case Greet(_, empty, _, _, _) => Tally(!empty, 0, 0, c.unasked)
    case Request(n, found, _, _, _) =>
      if n == 0 then c.(armed := false) else Tally(found.Some? && found.value > 0, 0, 0, c.unasked)
    case Receipt(_, count, named, _, empty, _, _, _) =>
      if named then Tally(count == 0 || !empty, 0, 0, c.unasked)
      else c.(armed := false, quiet := if count == 0 then c.quiet else 0)
    case Offer(want, _, _, _) => c.(armed := c.armed && want != Some(0), empties := 0)
    case Upload(accepted, _, _, _) =>
      c.(armed := false, empties := 0, quiet := if accepted == Some(0) then c.quiet else 0)
  }

  /** The tally at the end of a run, counting the call that ended it. */
  function LastTally(s: D.State, l: D.Limits, t: Tally, calls: seq<Call>): Tally
    decreases |calls|
  {
    if calls == [] then t
    else
      var (s1, v) := CallRound(s, l, calls[0]);
      if Continues(v) then LastTally(s1, l, Next(t, calls[0]), calls[1..]) else Count(t, calls[0])
  }

  /** The round count after `x` yield points were passed. */
  function YieldCap(l: D.Limits, x: nat): int { l.yieldEvery * (1 + x) }

  predicate Yields(l: D.Limits) { l.fairness && l.yieldEvery > 0 }

  /** What holds while a session goes on. */
  ghost predicate Running(s: D.State, l: D.Limits, t: Tally)
  {
    && (l.roundBudget > 0 ==> s.rounds <= l.roundBudget + t.empties)
    && (l.noProgressCap > 0 ==> s.streak <= l.noProgressCap + t.quiet)
    && (Yields(l) ==> s.rounds + One(t.armed) <= YieldCap(l, t.unasked))
  }

  /** What holds wherever it ends. */
  ghost predicate Overshoot(s: D.State, l: D.Limits, t: Tally)
  {
    && (l.roundBudget > 0 ==> s.rounds <= l.roundBudget + t.empties + 1)
    && (l.noProgressCap > 0 ==> s.streak <= l.noProgressCap + t.quiet + 1)
    && (Yields(l) ==> s.rounds <= YieldCap(l, t.unasked))
  }

  /** Sending completes no round, and goes on only below the round budget. */
  lemma SendChecks(s: D.State, l: D.Limits, size: Option<nat>, queued: bool, clock: int)
    ensures var (s', v) := SendFrame(s, l, size, queued, clock);
            && s'.rounds == s.rounds && s'.streak == s.streak
            && (Continues(v) && size.Some? && size.value > 0 && l.roundBudget > 0 ==> s.rounds < l.roundBudget)
            && (Continues(v) ==> size.Some?)
  {
  }

  /** What a yes to another round leaves room for. */
  lemma Gate(s: D.State, l: D.Limits, clock: int, x: nat)
    ensures var (s', ok) := D.CanStart(s, l, clock);
            && s'.rounds == s.rounds && s'.streak == s.streak
            && (ok ==> && (l.roundBudget > 0 ==> s.rounds < l.roundBudget)
                       && (l.noProgressCap > 0 ==> s.streak < l.noProgressCap)
                       && (Yields(l) && s.rounds <= YieldCap(l, x) ==> s.rounds < YieldCap(l, x)))
  {
    if Yields(l) { D.YieldMultiples(s.rounds, l.yieldEvery, x); }
  }

  lemma CapGrows(l: D.Limits, x: nat)
    ensures Yields(l) ==> YieldCap(l, x) < YieldCap(l, x + 1)
  {
    assert YieldCap(l, x + 1) == YieldCap(l, x) + l.yieldEvery;
  }

  /** A call's outcome against the tally. */
  ghost predicate Accounted(l: D.Limits, t: Tally, call: Call, s': D.State, v: Verdict)
  {
    if Continues(v) then Running(s', l, Next(t, call)) else Overshoot(s', l, Count(t, call))
  }

  lemma SummaryAccounted(
    s: D.State, l: D.Limits, x: nat, listed: bool, empty: bool, size: Option<nat>, queued: bool, clock: int)
    requires (size.Some? ==> size.value > 0) && (Yields(l) ==> s.rounds <= YieldCap(l, x))
    ensures var (s', v) := SummaryRound(s, l, listed, empty, size, queued, clock);
            && s.rounds <= s'.rounds && s.streak <= s'.streak
            && (Continues(v) ==> Running(s', l, Tally(!empty, 0, 0, x)))
            && (l.roundBudget > 0 ==> s'.rounds == s.rounds || s'.rounds <= l.roundBudget)
            && (l.noProgressCap > 0 ==> s'.streak == s.streak || s'.streak <= l.noProgressCap)
            && (Yields(l) ==> s'.rounds <= YieldCap(l, x))
  {
    hide D.CanStart; hide SendFrame; hide YieldCap;
    Gate(s, l, clock, x);
    var s1 := D.CanStart(s, l, clock).0;
    SendChecks(if empty then D.Step(s1, l, D.CompleteRound(false, clock)).0 else s1, l, size, queued, clock);
  }

  lemma RequestAccounted(
    s: D.State, l: D.Limits, t: Tally, n: nat, found: Option<nat>, size: Option<nat>, queued: bool, clock: int)
    requires Running(s, l, t) && (size.Some? ==> size.value > 0)
    ensures var (s', v) := RequestRound(s, l, n, found, size, queued, clock);
            Accounted(l, t, Request(n, found, size, queued, clock), s', v)
  {
    hide D.CanStart; hide SendFrame; hide YieldCap;
    CapGrows(l, t.unasked);
    var s0 := D.Step(s, l, D.RecordRequested(n, clock)).0;
    Gate(s0, l, clock, t.unasked);
    var s1 := D.CanStart(s0, l, clock).0;
    if found.Some? {
      SendChecks(D.Step(s1, l, D.RecordTransferred(found.value, clock)).0, l, size, queued, clock);
    }
  }

  lemma ReceiptAccounted(
    s: D.State, l: D.Limits, t: Tally, count: nat, named: bool, listed: bool, empty: bool, size: Option<nat>,
    queued: bool, clock: int)
    requires Running(s, l, t) && (size.Some? ==> size.value > 0)
    ensures var (s', v) := ReceiptRound(s, l, count, named, listed, empty, size, queued, clock);
            Accounted(l, t, Receipt(true, count, named, listed, empty, size, queued, clock), s', v)
  {
    hide D.CanStart; hide SummaryRound; hide YieldCap;
    CapGrows(l, t.unasked);
    var s1 := Settle(s, l, count, clock);
    Gate(s1, l, clock, t.unasked + One(!t.armed));
    SummaryAccounted(s1, l, t.unasked + One(!t.armed), listed, empty, size, queued, clock);
  }

  lemma OfferAccounted(
    s: D.State, l: D.Limits, t: Tally, want: Option<nat>, size: Option<nat>, queued: bool, clock: int)
    requires Running(s, l, t) && (size.Some? ==> size.value > 0)
    ensures var (s', v) := OfferRound(s, l, want, size, queued, clock);
            Accounted(l, t, Offer(want, size, queued, clock), s', v)
  {
    hide SendFrame; hide YieldCap;
    CapGrows(l, t.unasked);
    if want.Some? {
      var s1 := D.Step(s, l, D.RecordRequested(want.value, clock)).0;
      var s2 := if want.value == 0 then D.Step(s1, l, D.CompleteRound(false, clock)).0 else s1;
      SendChecks(s2, l, size, queued, clock);
    }
  }

  lemma UploadAccounted(
    s: D.State, l: D.Limits, t: Tally, accepted: Option<nat>, size: Option<nat>, queued: bool, clock: int)
    requires Running(s, l, t) && (size.Some? ==> size.value > 0)
    ensures var (s', v) := UploadRound(s, l, accepted, size, queued, clock);
            Accounted(l, t, Upload(accepted, size, queued, clock), s', v)
  {
    hide SendFrame; hide YieldCap;
    CapGrows(l, t.unasked);
    if accepted.Some? {
      var s1 := D.Step(s, l, D.RecordTransferred(accepted.value, clock)).0;
      SendChecks(D.Step(s1, l, D.CompleteRound(accepted.value != 0, clock)).0, l, size, queued, clock);
    }
  }

  lemma CallAccounted(s: D.State, l: D.Limits, t: Tally, call: Call)
    requires Running(s, l, t) && Sized(call)
    ensures var (s', v) := CallRound(s, l, call); Accounted(l, t, call, s', v)
  {
    hide SummaryRound; hide RequestRound; hide ReceiptRound; hide OfferRound; hide UploadRound; hide YieldCap;
    match call {
      case Inbound(_, _) =>
      case Greet(listed, empty, size, queued, clock) =>
        SummaryAccounted(s, l, t.unasked, listed, empty, size, queued, clock);
      case Request(n, found, size, queued, clock) => RequestAccounted(s, l, t, n, found, size, queued, clock);
      case Receipt(stored, count, named, listed, empty, size, queued, clock) =>
        if stored { ReceiptAccounted(s, l, t, count, named, listed, empty, size, queued, clock); }
      case Offer(want, size, queued, clock) => OfferAccounted(s, l, t, want, size, queued, clock);
      case Upload(accepted, size, queued, clock) => UploadAccounted(s, l, t, accepted, size, queued, clock);
    }
  }

  /** Over every session, whatever the client sends and however it is chunked: rounds pass their
      budget by at most one plus the empty requests that ended the session's last stretch, the
      streak passes its cap by at most one plus the unchecked no-progress rounds, and at most as
      many yield points are passed as rounds were completed without asking. */
  lemma {:induction false} HandlerOvershootBound(s: D.State, l: D.Limits, t: Tally, calls: seq<Call>)
    requires Running(s, l, t) && forall i | 0 <= i < |calls| :: Sized(calls[i])
    ensures Overshoot(RunCalls(s, l, calls), l, LastTally(s, l, t, calls))
    decreases |calls|
  {
    hide CallRound; hide Next; hide Count; hide YieldCap; hide Sized;
    if calls != [] {
      CallAccounted(s, l, t, calls[0]);
      var (s1, v) := CallRound(s, l, calls[0]);
      if Continues(v) {
        HandlerOvershootBound(s1, l, Next(t, calls[0]), calls[1..]);
      }
    }
  }

  lemma FreshIsRunning(start: int, l: D.Limits)
    ensures Running(D.Fresh(start), D.Normalize(l), NOTHING)
  {
    if Yields(l) { D.MultiplePositive(l.yieldEvery, 1); }
  }

  /** The same from the start, for every configured limits: a whole session. */
  lemma SessionOvershootBound(start: int, l: D.Limits, calls: seq<Call>)
    requires forall i | 0 <= i < |calls| :: Sized(calls[i])
    ensures var s, n := D.Fresh(start), D.Normalize(l);
            Overshoot(RunCalls(s, n, calls), n, LastTally(s, n, NOTHING, calls))
  {
    hide RunCalls; hide LastTally; hide Sized; hide Overshoot; hide Running;
    FreshIsRunning(start, l);
    HandlerOvershootBound(D.Fresh(start), D.Normalize(l), NOTHING, calls);
  }

  // ---- clients that keep limits

  /** One frame in each chunk. */
  predicate Paced(calls: seq<Call>)
  {
    forall i | 0 <= i < |calls| && !calls[i].Inbound? :: i > 0 && calls[i - 1].Inbound? && calls[i - 1].bytes > 0
  }

  lemma CallFromBelow(s: D.State, l: D.Limits, call: Call)
    requires l.roundBudget > 0 && s.rounds < l.roundBudget && Sized(call)
    ensures CallRound(s, l, call).0.rounds <= l.roundBudget
  {
    hide D.CanStart; hide SendFrame;
    match call {
      case Inbound(_, _) =>
      case Greet(listed, empty, size, queued, clock) => FromBelow(s, l, listed, empty, size, queued, clock);
      case Request(n, found, size, queued, clock) =>
        var s0 := D.Step(s, l, D.RecordRequested(n, clock)).0;
        Gate(s0, l, clock, 0);
        var s1 := D.CanStart(s0, l, clock).0;
        if found.Some? {
          SendChecks(D.Step(s1, l, D.RecordTransferred(found.value, clock)).0, l, size, queued, clock);
        }
      case Receipt(_, count, _, listed, empty, size, queued, clock) =>
        var s1 := Settle(s, l, count, clock);
        Gate(s1, l, clock, 0);
        FromBelow(s1, l, listed, empty, size, queued, clock);
      case Offer(want, size, queued, clock) =>
        if want.Some? {
          var s1 := D.Step(s, l, D.RecordRequested(want.value, clock)).0;
          var s2 := if want.value == 0 then D.Step(s1, l, D.CompleteRound(false, clock)).0 else s1;
          SendChecks(s2, l, size, queued, clock);
        }
      case Upload(accepted, size, queued, clock) =>
        if accepted.Some? {
          var s1 := D.Step(s, l, D.RecordTransferred(accepted.value, clock)).0;
          SendChecks(D.Step(s1, l, D.CompleteRound(accepted.value != 0, clock)).0, l, size, queued, clock);
        }
    }
  }

  lemma FromBelow(s: D.State, l: D.Limits, listed: bool, empty: bool, size: Option<nat>, queued: bool, clock: int)
    requires l.roundBudget > 0 && s.rounds <= l.roundBudget
    ensures SummaryRound(s, l, listed, empty, size, queued, clock).0.rounds <= l.roundBudget
  {
    hide D.CanStart; hide SendFrame;
    Gate(s, l, clock, 0);
    var s1 := D.CanStart(s, l, clock).0;
    SendChecks(if empty then D.Step(s1, l, D.CompleteRound(false, clock)).0 else s1, l, size, queued, clock);
  }

  lemma InboundChecks(s: D.State, l: D.Limits, call: Call)
    requires call.Inbound?
    ensures var (s1, v) := CallRound(s, l, call);
            && s1.rounds == s.rounds
            && (Continues(v) && call.bytes > 0 && l.roundBudget > 0 ==> s1.rounds < l.roundBudget)
  {
  }

  /** Any client that sends one frame in each chunk keeps the round budget, whatever the frames. */
  lemma {:induction false} PacedClientsKeepRoundBudget(s: D.State, l: D.Limits, calls: seq<Call>)
    requires l.roundBudget > 0 && s.rounds <= l.roundBudget && Paced(calls)
    requires forall i | 0 <= i < |calls| :: Sized(calls[i])
    ensures RunCalls(s, l, calls).rounds <= l.roundBudget
    decreases |calls|
  {
    hide CallRound; hide Due; hide Sized;
    if calls != [] {
      assert calls[0].Inbound?;
      InboundChecks(s, l, calls[0]);
      var (s1, v) := CallRound(s, l, calls[0]);
      var rest := calls[1..];
      if Continues(v) && rest != [] {
        if rest[0].Inbound? {
          PacedTail(calls);
          PacedClientsKeepRoundBudget(s1, l, rest);
        } else {
          assert calls[1] == rest[0];
          CallFromBelow(s1, l, rest[0]);
          var (s2, v2) := CallRound(s1, l, rest[0]);
          if Continues(v2) {
            PacedAfterFrame(calls);
            PacedClientsKeepRoundBudget(s2, l, rest[1..]);
          }
        }
      }
    }
  }

  lemma PacedTail(calls: seq<Call>)
    requires Paced(calls) && |calls| > 1 && calls[1].Inbound?
    ensures Paced(calls[1..])
  {
    var rest := calls[1..];
    forall i | 0 <= i < |rest| && !rest[i].Inbound? ensures i > 0 && rest[i - 1].Inbound? && rest[i - 1].bytes > 0 {
      assert rest[i] == calls[i + 1];
    }
  }

  lemma PacedAfterFrame(calls: seq<Call>)
    requires Paced(calls) && |calls| > 1 && !calls[1].Inbound?
    ensures Paced(calls[1..][1..])
  {
    var rest := calls[1..][1..];
    forall i | 0 <= i < |rest| && !rest[i].Inbound? ensures i > 0 && rest[i - 1].Inbound? && rest[i - 1].bytes > 0 {
      assert rest[i] == calls[i + 2];
    }
  }

  /** Whether a receipt is due after a call. */
  function Due(s: D.State, l: D.Limits, due: bool, call: Call): bool
  {
    match call
    case Request(n, found, _, _, clock) => due || Serves(s, l, n, found, clock)
    case Receipt(_, _, _, _, _, _, _, _) => false
    case _ => due
  }

  /** A client that only receives: it requests something each time, not while a receipt is due,
      acknowledges only when one is, and sends no SUMMARY or TRANSFER of its own. */
  predicate Orderly(s: D.State, l: D.Limits, due: bool, calls: seq<Call>)
    decreases |calls|
  {
    calls != [] ==>
      && (calls[0].Request? ==> calls[0].n > 0 && !due) && (calls[0].Greet? ==> !due)
      && (calls[0].Receipt? ==> due) && !calls[0].Offer? && !calls[0].Upload?
      && Orderly(CallRound(s, l, calls[0]).0, l, Due(s, l, due, calls[0]), calls[1..])
  }

  lemma SendKeepsRoom(s: D.State, l: D.Limits, due: bool, size: Option<nat>, queued: bool, clock: int)
    requires D.RoomForRound(s, l, due)
    ensures D.RoomForRound(SendFrame(s, l, size, queued, clock).0, l, due)
  {
    hide SendFrame;
    SendChecks(s, l, size, queued, clock);
  }

  lemma SummaryKeepsRoom(
    s: D.State, l: D.Limits, listed: bool, empty: bool, size: Option<nat>, queued: bool, clock: int)
    requires D.WithinLimits(s, l)
    ensures D.WithinLimits(SummaryRound(s, l, listed, empty, size, queued, clock).0, l)
  {
    hide SendFrame;
    if D.CanStart(s, l, clock).1 {
      D.YesLeavesRoom(s, l, clock);
      var s1 := D.CanStart(s, l, clock).0;
      var s2 := if empty then D.Step(s1, l, D.CompleteRound(false, clock)).0 else s1;
      SendKeepsRoom(s2, l, false, size, queued, clock);
    }
  }

  lemma RequestKeepsRoom(
    s: D.State, l: D.Limits, n: nat, found: Option<nat>, size: Option<nat>, queued: bool, clock: int)
    requires D.WithinLimits(s, l) && n > 0
    ensures D.RoomForRound(RequestRound(s, l, n, found, size, queued, clock).0, l, Serves(s, l, n, found, clock))
  {
    hide SendFrame;
    var s0 := D.Step(s, l, D.RecordRequested(n, clock)).0;
    assert D.WithinLimits(s0, l);
    var (s1, ok) := D.CanStart(s0, l, clock);
    if ok {
      D.YesLeavesRoom(s0, l, clock);
      if found.Some? {
        SendKeepsRoom(D.Step(s1, l, D.RecordTransferred(found.value, clock)).0, l, true, size, queued, clock);
      }
    }
  }

  lemma SettleKeepsLimits(s: D.State, l: D.Limits, count: nat, clock: int)
    requires D.RoomForRound(s, l, true)
    ensures D.WithinLimits(Settle(s, l, count, clock), l)
  {
  }

  lemma CallKeepsRoom(s: D.State, l: D.Limits, due: bool, call: Call)
    requires D.RoomForRound(s, l, due) && (call.Receipt? ==> due) && !call.Offer? && !call.Upload?
    requires (call.Request? ==> call.n > 0 && !due) && (call.Greet? ==> !due)
    ensures D.RoomForRound(CallRound(s, l, call).0, l, Due(s, l, due, call))
  {
    hide SummaryRound; hide RequestRound; hide Serves; hide Settle;
    match call {
      case Greet(listed, empty, size, queued, clock) => SummaryKeepsRoom(s, l, listed, empty, size, queued, clock);
      case Request(n, found, size, queued, clock) => RequestKeepsRoom(s, l, n, found, size, queued, clock);
      case Receipt(stored, count, named, listed, empty, size, queued, clock) =>
        SettleKeepsLimits(s, l, count, clock);
        SummaryKeepsRoom(Settle(s, l, count, clock), l, listed, empty, size, queued, clock);
      case Inbound(_, _) =>
    }
  }

  /** An orderly client that only receives keeps every enabled limit, in any chunking. */
  lemma {:induction false} OrderlyClientsKeepLimits(s: D.State, l: D.Limits, due: bool, calls: seq<Call>)
    requires D.RoomForRound(s, l, due) && Orderly(s, l, due, calls)
    ensures D.WithinLimits(RunCalls(s, l, calls), l)
    decreases |calls|
  {
    hide CallRound; hide Due; hide Sized;
    if calls != [] {
      CallKeepsRoom(s, l, due, calls[0]);
      var (s1, v) := CallRound(s, l, calls[0]);
      if Continues(v) { OrderlyClientsKeepLimits(s1, l, Due(s, l, due, calls[0]), calls[1..]); }
    }
  }

  // ---- every bound is reached

  const CHUNK := Inbound(1, 0)
  const GREET := Greet(true, false, Some(1), true, 0)
  const IDLE := Request(1, Some(0), None, true, 0)
  const SERVED := Request(1, Some(1), Some(1), true, 0)
  const EMPTY := Request(0, Some(0), None, true, 0)
  const ACK := Receipt(true, 0, true, true, false, None, true, 0)
  const NO_WANT := Offer(Some(0), Some(1), true, 0)
  const REFUSED := Upload(Some(0), Some(1), true, 0)
  const UPLOAD := Upload(Some(1), Some(1), true, 0)

  function Repeat(call: Call, n: nat): seq<Call> { seq(n, _ => call) }

  /** Neither time nor bytes are limited, and nothing has stopped the session. */
  predicate Untimed(s: D.State, l: D.Limits) { l.wallClock == 0 && l.byteBudget == 0 && s.stop == D.NoReason }

  /** A round check says yes at these counts. */
  predicate Allowed(l: D.Limits, rounds: nat, streak: nat)
  {
    && (l.roundBudget > 0 ==> rounds < l.roundBudget) && (l.noProgressCap > 0 ==> streak < l.noProgressCap)
    && (Yields(l) ==> rounds == 0 || rounds % l.yieldEvery != 0)
  }

  /** A call goes on, changes no stop reason, and leaves these counts. */
  ghost predicate Goes(s: D.State, l: D.Limits, call: Call, rounds: nat, streak: nat)
  {
    var (s', v) := CallRound(s, l, call);
    Continues(v) && s'.stop == D.NoReason && s'.rounds == rounds && s'.streak == streak
  }

  lemma SingleCalls(s: D.State, l: D.Limits)
    requires Untimed(s, l)
    ensures Allowed(l, s.rounds, s.streak) ==>
              && Goes(s, l, IDLE, s.rounds + 1, s.streak + 1)
              && Goes(s, l, SERVED, s.rounds, s.streak) && Serves(s, l, 1, Some(1), 0)
              && Goes(s, l, GREET, s.rounds, s.streak) && Goes(s, l, CHUNK, s.rounds, s.streak)
    ensures Goes(s, l, EMPTY, s.rounds + 1, s.streak + 1)
    ensures l.roundBudget == 0 ==>
              && Goes(s, l, NO_WANT, s.rounds + 1, s.streak + 1) && Goes(s, l, REFUSED, s.rounds + 1, s.streak + 1)
              && Goes(s, l, UPLOAD, s.rounds + 1, 0)
    ensures var s' := CallRound(s, l, ACK).0; s'.rounds == s.rounds + 1 && s'.streak == s.streak + 1
  {
  }

  /** None of these serves a transfer. */
  lemma PumpKept(s: D.State, l: D.Limits, a: Pump)
    ensures PumpAfter(s, l, a, IDLE) == a && PumpAfter(s, l, a, EMPTY) == a
    ensures PumpAfter(s, l, a, NO_WANT) == a && PumpAfter(s, l, a, REFUSED) == a && PumpAfter(s, l, a, UPLOAD) == a
  {
  }

  /** A run that begins with a call that goes on. */
  lemma RunStep(s: D.State, l: D.Limits, a: Pump, call: Call, rest: seq<Call>)
    requires Admits(a, call) && Sized(call) && Continues(CallRound(s, l, call).1)
    ensures RunCalls(s, l, [call] + rest) == RunCalls(CallRound(s, l, call).0, l, rest)
    ensures Receivable(CallRound(s, l, call).0, l, PumpAfter(s, l, a, call), rest) ==>
              Receivable(s, l, a, [call] + rest)
    ensures forall t: Tally ::
              LastTally(s, l, t, [call] + rest) == LastTally(CallRound(s, l, call).0, l, Next(t, call), rest)
  {
    hide CallRound; hide PumpAfter; hide Admits; hide Next;
    assert ([call] + rest)[1..] == rest && ([call] + rest)[0] == call;
  }

  function Through(t: Tally, calls: seq<Call>): Tally
    decreases |calls|
  {
    if calls == [] then t else Through(Next(t, calls[0]), calls[1..])
  }

  /** Rounds without progress that no check looks at. */
  predicate Quiet(l: D.Limits, call: Call)
  {
    call == EMPTY || (l.roundBudget == 0 && (call == NO_WANT || call == REFUSED))
  }

  /** Calls that each complete one round without progress, and go on. */
  ghost predicate Plain(l: D.Limits, rounds: nat, streak: nat, calls: seq<Call>)
  {
    forall i | 0 <= i < |calls| :: Quiet(l, calls[i]) || (calls[i] == IDLE && Allowed(l, rounds + i, streak + i))
  }

  lemma {:induction false} RunPlain(s: D.State, l: D.Limits, a: Pump, calls: seq<Call>, rest: seq<Call>)
    returns (s1: D.State)
    requires Untimed(s, l) && Plain(l, s.rounds, s.streak, calls) && a.greeted
    ensures Untimed(s1, l) && s1.rounds == s.rounds + |calls| && s1.streak == s.streak + |calls|
    ensures RunCalls(s, l, calls + rest) == RunCalls(s1, l, rest)
    ensures Receivable(s1, l, a, rest) ==> Receivable(s, l, a, calls + rest)
    ensures forall t: Tally :: LastTally(s, l, t, calls + rest) == LastTally(s1, l, Through(t, calls), rest)
    decreases |calls|
  {
    hide CallRound; hide PumpAfter; hide RunCalls; hide Receivable; hide LastTally; hide Next; hide Allowed;
    if calls == [] {
      assert calls + rest == rest;
      s1 := s;
    } else {
      var call, s0 := calls[0], CallRound(s, l, calls[0]).0;
      SingleCalls(s, l);
      PumpKept(s, l, a);
      assert Plain(l, s.rounds + 1, s.streak + 1, calls[1..]) by {
        forall i | 0 <= i < |calls[1..]|
          ensures Quiet(l, calls[1..][i]) || (calls[1..][i] == IDLE && Allowed(l, s.rounds + 1 + i, s.streak + 1 + i))
        {
          assert calls[1..][i] == calls[i + 1];
        }
      }
      s1 := RunPlain(s0, l, a, calls[1..], rest);
      RunStep(s, l, a, call, calls[1..] + rest);
      assert calls + rest == [call] + (calls[1..] + rest);
    }
  }

  /** A session begins: a chunk with HELLO and what follows in it. */
  function Session(calls: seq<Call>): seq<Call> { [CHUNK] + ([GREET] + calls) }

  const GREETED := Pump(true, true, false, false)

  lemma SessionBegins(s: D.State, l: D.Limits, calls: seq<Call>)
    returns (s1: D.State)
    requires Untimed(s, l) && Allowed(l, s.rounds, s.streak)
    ensures Untimed(s1, l) && s1.rounds == s.rounds && s1.streak == s.streak
    ensures RunCalls(s, l, Session(calls)) == RunCalls(s1, l, calls)
    ensures Receivable(s1, l, GREETED, calls) ==> Receivable(s, l, SILENT, Session(calls))
    ensures LastTally(s, l, NOTHING, Session(calls)) == LastTally(s1, l, Tally(true, 0, 0, 0), calls)
  {
    hide CallRound; hide RunCalls; hide Receivable; hide LastTally;
    SingleCalls(s, l);
    RunStep(s, l, SILENT, CHUNK, [GREET] + calls);
    var s0 := CallRound(s, l, CHUNK).0;
    SingleCalls(s0, l);
    RunStep(s0, l, PumpAfter(s, l, SILENT, CHUNK), GREET, calls);
    s1 := CallRound(s0, l, GREET).0;
  }

  /** One id asked for in vain up to the last round, then one served; in the next chunk one more
      in vain, quiet rounds, and the receipt. */
  function Chase(n: nat, quiet: seq<Call>): seq<Call>
    requires n > 0
  {
    Repeat(IDLE, n - 1) + ([SERVED] + ([CHUNK] + ([IDLE] + (quiet + [ACK]))))
  }

  /** The receipt comes when a round check already says no, and completes one round more. */
  lemma ChaseRuns(s: D.State, l: D.Limits, n: nat, quiet: seq<Call>)
    requires n > 0 && Untimed(s, l) && s.rounds == 0 && s.streak == 0 && (forall k: nat | k < n :: Allowed(l, k, k))
    requires (forall i | 0 <= i < |quiet| :: Quiet(l, quiet[i])) && !Allowed(l, n + |quiet| + 1, n + |quiet| + 1)
    ensures var calls := Session(Chase(n, quiet));
            var s' := RunCalls(s, l, calls);
            && Receivable(s, l, SILENT, calls) && s'.rounds == n + |quiet| + 1 && s'.streak == n + |quiet| + 1
            && LastTally(s, l, NOTHING, calls) == Count(Through(NOTHING, quiet), ACK)
  {
    hide CallRound; hide RunCalls; hide Receivable; hide LastTally; hide Allowed; hide Session; hide Through;
    var tail := [CHUNK] + ([IDLE] + (quiet + [ACK]));
    var s0 := SessionBegins(s, l, Chase(n, quiet));
    var s1 := RunPlain(s0, l, GREETED, Repeat(IDLE, n - 1), [SERVED] + tail);
    IdleTally(Tally(true, 0, 0, 0), n - 1);
    SingleCalls(s1, l);
    RunStep(s1, l, GREETED, SERVED, tail);
    var s2, a2 := CallRound(s1, l, SERVED).0, PumpAfter(s1, l, GREETED, SERVED);
    assert a2 == Pump(true, true, false, true);
    SingleCalls(s2, l);
    RunStep(s2, l, a2, CHUNK, [IDLE] + (quiet + [ACK]));
    var s3, a3 := CallRound(s2, l, CHUNK).0, PumpAfter(s2, l, a2, CHUNK);
    assert a3 == Pump(true, true, true, false);
    SingleCalls(s3, l); PumpKept(s3, l, a3);
    RunStep(s3, l, a3, IDLE, quiet + [ACK]);
    var s4 := CallRound(s3, l, IDLE).0;
    var s5 := RunPlain(s4, l, a3, quiet, [ACK]);
    AckEnds(s5, l, a3);
  }

  lemma AckEnds(s: D.State, l: D.Limits, a: Pump)
    requires Untimed(s, l) && !Allowed(l, s.rounds + 1, s.streak + 1) && a.greeted && a.open
    ensures var s' := RunCalls(s, l, [ACK]); s'.rounds == s.rounds + 1 && s'.streak == s.streak + 1
    ensures Receivable(s, l, a, [ACK]) && forall t: Tally :: LastTally(s, l, t, [ACK]) == Count(t, ACK)
  {
  }

  lemma {:induction false} QuietTally(l: D.Limits, t: Tally, quiet: seq<Call>)
    requires !t.armed && forall i | 0 <= i < |quiet| :: Quiet(l, quiet[i])
    ensures var u := Through(t, quiet);
            && u.quiet == t.quiet + |quiet| && !u.armed
            && ((forall i | 0 <= i < |quiet| :: quiet[i] == EMPTY) ==> u.empties == t.empties + |quiet|)
    decreases |quiet|
  {
    if quiet != [] {
      QuietTally(l, Next(t, quiet[0]), quiet[1..]);
      assert forall i | 0 <= i < |quiet| - 1 :: quiet[1..][i] == quiet[i + 1];
    }
  }

  /** The round bound is reached: for every budget and number of empty requests in a row. */
  lemma RoundOvershootIsReached(start: int, budget: nat, empties: nat)
    requires budget > 0
    ensures var s, l := D.Fresh(start), D.Limits(budget, 0, 0, 0, 0, false);
            var calls := Session(Chase(budget, Repeat(EMPTY, empties)));
            && Receivable(s, l, SILENT, calls) && LastTally(s, l, NOTHING, calls).empties == empties
            && RunCalls(s, l, calls).rounds == budget + empties + 1
  {
    hide RunCalls; hide Receivable; hide LastTally; hide Chase; hide Session; hide Through;
    var s, l, quiet := D.Fresh(start), D.Limits(budget, 0, 0, 0, 0, false), Repeat(EMPTY, empties);
    ChaseRuns(s, l, budget, quiet);
    QuietTally(l, NOTHING, quiet);
  }

  /** The streak bound is reached: for every cap and every sequence of empty requests, summaries
      that offer nothing wanted and uploads of which nothing is accepted. */
  lemma StreakOvershootIsReached(start: int, cap: nat, quiet: seq<Call>)
    requires cap > 0 && forall i | 0 <= i < |quiet| :: quiet[i] in {EMPTY, NO_WANT, REFUSED}
    ensures var s, l, calls := D.Fresh(start), D.Limits(0, 0, 0, cap, 0, false), Session(Chase(cap, quiet));
            && Receivable(s, l, SILENT, calls) && LastTally(s, l, NOTHING, calls).quiet == |quiet|
            && RunCalls(s, l, calls).streak == cap + |quiet| + 1
  {
    hide RunCalls; hide Receivable; hide LastTally; hide Chase; hide Session; hide Through;
    var s, l := D.Fresh(start), D.Limits(0, 0, 0, cap, 0, false);
    ChaseRuns(s, l, cap, quiet);
    QuietTally(l, NOTHING, quiet);
  }

  /** An upload past a yield point and on to the next one, `x` times. */
  function Skips(every: nat, x: nat): seq<Call>
    requires every > 0
  {
    if x == 0 then [] else [UPLOAD] + (Repeat(IDLE, every - 1) + Skips(every, x - 1))
  }

  lemma {:induction false} IdleTally(t: Tally, n: nat)
    ensures var u := Through(t, Repeat(IDLE, n)); u.unasked == t.unasked && (n > 0 || !t.armed ==> !u.armed)
    decreases n
  {
    if n > 0 {
      assert Repeat(IDLE, n)[1..] == Repeat(IDLE, n - 1);
      IdleTally(Next(t, IDLE), n - 1);
    }
  }

  lemma IdleBetween(l: D.Limits, m: nat, rounds: nat, streak: nat)
    requires l == D.Limits(0, 0, 0, 0, l.yieldEvery, true) && l.yieldEvery > 0 && rounds == l.yieldEvery * m + 1
    ensures Plain(l, rounds, streak, Repeat(IDLE, l.yieldEvery - 1))
  {
    hide Allowed;
    var calls := Repeat(IDLE, l.yieldEvery - 1);
    forall i | 0 <= i < |calls| ensures calls[i] == IDLE && Allowed(l, rounds + i, streak + i) {
      AllowedBetween(l, m, i + 1, rounds + i, streak + i);
    }
  }

  lemma AllowedBetween(l: D.Limits, m: nat, r: nat, rounds: nat, streak: nat)
    requires l == D.Limits(0, 0, 0, 0, l.yieldEvery, true) && 0 < r < l.yieldEvery && rounds == l.yieldEvery * m + r
    ensures Allowed(l, rounds, streak)
  {
    D.MultipleMod(l.yieldEvery, m, r);
  }

  lemma {:induction false} SkipsRun(s: D.State, l: D.Limits, m: nat, x: nat, t: Tally)
    requires l.yieldEvery > 0 && l == D.Limits(0, 0, 0, 0, l.yieldEvery, true)
    requires Untimed(s, l) && s.rounds == l.yieldEvery * m && !t.armed
    ensures var calls := Skips(l.yieldEvery, x);
            && RunCalls(s, l, calls).rounds == l.yieldEvery * (m + x) && Receivable(s, l, GREETED, calls)
            && LastTally(s, l, t, calls).unasked == t.unasked + x
    decreases x
  {
    hide CallRound; hide RunCalls; hide Receivable; hide LastTally; hide Through; hide PumpAfter;
    if x == 0 {
      NoCalls(s, l, t);
    } else {
      var idles, rest := Repeat(IDLE, l.yieldEvery - 1), Skips(l.yieldEvery, x - 1);
      SingleCalls(s, l); PumpKept(s, l, GREETED);
      RunStep(s, l, GREETED, UPLOAD, idles + rest);
      var s1 := CallRound(s, l, UPLOAD).0;
      IdleBetween(l, m, s1.rounds, s1.streak);
      var s2 := RunPlain(s1, l, GREETED, idles, rest);
      assert s2.rounds == l.yieldEvery * (m + 1);
      IdleTally(Next(t, UPLOAD), l.yieldEvery - 1);
      SkipsRun(s2, l, m + 1, x - 1, Through(Next(t, UPLOAD), idles));
    }
  }

  lemma NoCalls(s: D.State, l: D.Limits, t: Tally)
    ensures RunCalls(s, l, []) == s && Receivable(s, l, GREETED, []) && LastTally(s, l, t, []) == t
  {
  }

  /** The yield bound is reached: for every interval and number of yield points passed. */
  lemma YieldOvershootIsReached(start: int, every: nat, x: nat)
    requires every > 0
    ensures var s, l := D.Fresh(start), D.Limits(0, 0, 0, 0, every, true);
            var calls := Session(Repeat(IDLE, every) + Skips(every, x));
            && Receivable(s, l, SILENT, calls) && LastTally(s, l, NOTHING, calls).unasked == x
            && RunCalls(s, l, calls).rounds == YieldCap(l, x)
  {
    hide CallRound; hide RunCalls; hide Receivable; hide LastTally; hide Through; hide Skips; hide Session;
    var s, l := D.Fresh(start), D.Limits(0, 0, 0, 0, every, true);
    forall i: nat | i < every ensures Allowed(l, i, i) {
      if i > 0 { D.MultipleMod(every, 0, i); }
    }
    var s0 := SessionBegins(s, l, Repeat(IDLE, every) + Skips(every, x));
    var s1 := RunPlain(s0, l, GREETED, Repeat(IDLE, every), Skips(every, x));
    IdleTally(Tally(true, 0, 0, 0), every);
    assert s1.rounds == every * 1;
    SkipsRun(s1, l, 1, x, Through(Tally(true, 0, 0, 0), Repeat(IDLE, every)));
  }
}
