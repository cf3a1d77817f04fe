/** The durable ingest engine (internal/storeforward/federation_forwarding.go): every store call
    may fail, each store transaction is all or nothing, and other code may add or sweep messages
    and envelopes between calls. */
module Ingest {
  import opened ByteStrings
  import opened Ordered
  import opened Rfc3339
  import opened Envelopes

  datatype Message = Message(id: Str, from: Str, to: Str, payload: Str, created: Time, expires: Time)

  /** No envelope store, one that marks in one transaction, or one that marks in steps. */
  datatype Marking = NoEnvelopeStore | Atomic | Stepwise

  datatype Config = Config(relayId: Str, marking: Marking)

  /** What is durable. `seen` holds the keys of the seen bucket. */
  datatype Durable = Durable(messages: set<Str>, envelopes: map<Str, Envelope>, seen: set<Str>, markers: set<Str>)

  /** Which store calls of one engine call work; the last field counts marking calls. */
  datatype Faults = Faults(
    isSeen: bool, getMessage: bool, persistMessage: bool, getEnvelope: bool, persistEnvelope: bool, markCalls: nat)

  datatype Status = Accepted | Duplicate | Expired | SeenLoop
  datatype Error = InvalidMessage | PayloadTooLarge | StoreFailure
  datatype Outcome = Done(status: Status, envelope: Option<Envelope>) | Failed(error: Error) | NotForwarded

  datatype Signal = Signal(itemId: Str, trusted: bool, source: Str)

  datatype Result = Result(store: Durable, outcome: Outcome, signals: seq<Signal>)

  predicate ValidMessage(m: Option<Message>)
  {
    && m.Some?
    && m.value.id != [] && m.value.from != [] && m.value.to != [] && m.value.payload != []
    && m.value.created != ZERO_TIME && m.value.expires != ZERO_TIME
  }

  function EnvelopeFrom(m: Message, origin: Str): Envelope
  {
    Envelope(m.id, m.to, m.payload, origin, 0, m.created, m.expires)
  }

  /** The relays a message is marked as seen by: the source and this relay, each once, in order. */
  function SeenRelays(source: Str, local: Str): seq<Str> { Enumerate({source, local} - {[]}) }

  // ---- the steps

  /** Load or create the envelope, fill in its origin, store it; `None` when a call fails. */
  function EnvelopeState(c: Config, d: Durable, m: Message, origin: Str, f: Faults): Option<Envelope>
  {
    if c.marking == NoEnvelopeStore then Some(EnvelopeFrom(m, origin))
    else if !f.getEnvelope then None
    else
      var e := if m.id in d.envelopes then d.envelopes[m.id] else EnvelopeFrom(m, origin);
      var e' := if e.origin == [] then e.(origin := origin) else e;
      if f.persistEnvelope && Valid(e') then Some(e') else None
  }

  function WithSeen(d: Durable, id: Str, relays: seq<Str>): Durable
  {
    d.(seen := d.seen + set r | r in relays :: SeenKey(id, r))
  }

  /** Marking: the store afterwards, and whether the marker is new, or nothing on failure. */
  function MarkIngest(c: Config, d: Durable, id: Str, relays: seq<Str>, calls: nat): (Durable, Option<bool>)
  {
    match c.marking
    case NoEnvelopeStore => (d, Some(false))
    case Atomic =>
      if calls == 0 then (d, None)
      else (WithSeen(d, id, relays).(markers := d.markers + {id}), Some(id !in d.markers))
    case Stepwise =>
      if calls <= |relays| then (WithSeen(d, id, Take(relays, calls)), None)
      else (WithSeen(d, id, relays).(markers := d.markers + {id}), Some(id !in d.markers))
  }

  function Accept(
    c: Config, d: Durable, source: Str, msg: Option<Message>, maxPayload: int, now: Time, f: Faults): Result
  {
    if !ValidMessage(msg) then Result(d, Failed(InvalidMessage), [])
    else if maxPayload > 0 && |msg.value.payload| > maxPayload then Result(d, Failed(PayloadTooLarge), [])
    else if now > msg.value.expires then Result(d, Done(Expired, None), [])
    else if c.marking != NoEnvelopeStore && source != [] && !f.isSeen then Result(d, Failed(StoreFailure), [])
    else if !f.getMessage then Result(d, Failed(StoreFailure), [])
    else
      var m := msg.value;
      var seenBySource := c.marking != NoEnvelopeStore && source != [] && SeenKey(m.id, source) in d.seen;
      var exists_ := m.id in d.messages;
      if !exists_ && seenBySource then Result(d, Done(SeenLoop, None), [])
      else if !exists_ && !f.persistMessage then Result(d, Failed(StoreFailure), [])
      else Ingested(c, d.(messages := d.messages + {m.id}), source, m, exists_, seenBySource, f)
  }

  /** The part after the message is durable. */
  function Ingested(
    c: Config, d: Durable, source: Str, m: Message, existed: bool, seenBySource: bool, f: Faults): Result
  {
    var e := EnvelopeState(c, d, m, source, f);
    if e.None? then Result(d, Failed(StoreFailure), [])
    else
      var d1 := if c.marking == NoEnvelopeStore then d else d.(envelopes := d.envelopes[m.id := e.value]);
      var (d2, marked) := MarkIngest(c, d1, m.id, SeenRelays(source, c.relayId), f.markCalls);
      if marked.None? then Result(d2, Failed(StoreFailure), [])
      else
        var new_ := if c.marking == NoEnvelopeStore then !existed else marked.value;
        var status := if !existed then Accepted else if seenBySource then SeenLoop else Duplicate;
        Result(d2, Done(status, e), if new_ then [Signal(m.id, source != [], source)] else [])
  }

  class Engine {
    const config: Config
    var messages: set<Str>
    var envelopes: map<Str, Envelope>
    var seen: set<Str>
    var markers: set<Str>
    var emitted: seq<Signal>   // what the ingest observer received

    function Abs(): Durable
      reads this
    {
      Durable(messages, envelopes, seen, markers)
    }

    constructor (config: Config)
      ensures this.config == config && Abs() == Durable({}, map[], {}, {}) && emitted == []
    {
      this.config := config;
      messages, envelopes, seen, markers, emitted := {}, map[], {}, {}, [];
    }

    method AcceptRelayForward(source: Str, msg: Option<Message>, maxPayload: int, now: Time, f: Faults)
      returns (outcome: Outcome)
      modifies this
      ensures var r := Accept(config, old(Abs()), source, msg, maxPayload, now, f);
              Abs() == r.store && outcome == r.outcome && emitted == old(emitted) + r.signals
    {
      hide Valid; hide Enumerate;
      assert emitted + [] == emitted;
      if !ValidMessage(msg) { return Failed(InvalidMessage); }
      var m := msg.value;
      if maxPayload > 0 && |m.payload| > maxPayload { return Failed(PayloadTooLarge); }
      if now > m.expires { return Done(Expired, None); }

      var seenBySource := false;
      if config.marking != NoEnvelopeStore && source != [] {
        if !f.isSeen { return Failed(StoreFailure); }
        seenBySource := SeenKey(m.id, source) in seen;
      }
      if !f.getMessage { return Failed(StoreFailure); }
      var existed := m.id in messages;
      if !existed {
        if seenBySource { return Done(SeenLoop, None); }
        if !f.persistMessage { return Failed(StoreFailure); }
      }
      messages := messages + {m.id};

      var envelope := PersistEnvelopeState(m, source, f);
      if envelope.None? { return Failed(StoreFailure); }

      var markerCreated := !existed;
      if config.marking != NoEnvelopeStore {
        var marked := Mark(m.id, SeenRelays(source, config.relayId), f.markCalls);
        if marked.None? { return Failed(StoreFailure); }
        markerCreated := marked.value;
      }
      if markerCreated { emitted := emitted + [Signal(m.id, source != [], source)]; }
      var status := if !existed then Accepted else if seenBySource then SeenLoop else Duplicate;
      return Done(status, envelope);
    }

    method PersistEnvelopeState(m: Message, origin: Str, f: Faults) returns (r: Option<Envelope>)
      modifies this
      ensures r == EnvelopeState(config, old(Abs()), m, origin, f)
      ensures Abs() == if r.Some? && config.marking != NoEnvelopeStore
                       then old(Abs()).(envelopes := old(envelopes)[m.id := r.value]) else old(Abs())
      ensures emitted == old(emitted)
    {
      if config.marking == NoEnvelopeStore { return Some(EnvelopeFrom(m, origin)); }
      if !f.getEnvelope { return None; }
      var e := if m.id in envelopes then envelopes[m.id] else EnvelopeFrom(m, origin);
      if e.origin == [] { e := e.(origin := origin); }
      if !f.persistEnvelope || !Valid(e) { return None; }
      envelopes := envelopes[m.id := e];
      return Some(e);
    }

    /** In one transaction the seen keys and the marker appear together; in steps each call
        writes one key, in relay order, and the marker comes last. */
    method Mark(id: Str, relays: seq<Str>, calls: nat) returns (created: Option<bool>)
      requires config.marking != NoEnvelopeStore
      modifies this
      ensures (Abs(), created) == MarkIngest(config, old(Abs()), id, relays, calls)
      ensures emitted == old(emitted)
    {
      if config.marking == Atomic {
        if calls == 0 { return None; }
        seen := seen + set r | r in relays :: SeenKey(id, r);
      } else {
        for i := 0 to |relays|
          invariant i <= calls
          invariant Abs() == WithSeen(old(Abs()), id, relays[..i]) && emitted == old(emitted)
        {
          if i == calls { return None; }
          assert relays[..i + 1] == relays[..i] + [relays[i]];
          seen := seen + {SeenKey(id, relays[i])};
        }
        assert relays[..|relays|] == relays;
        if calls == |relays| { return None; }
      }
      created := Some(id !in markers);
      markers := markers + {id};
    }
  }

  // ---- other code between calls

  datatype Op =
    | Forward(source: Str, msg: Option<Message>, maxPayload: int, now: Time, faults: Faults)
    | AddMessage(id: Str)
    | RemoveMessage(id: Str)
    | PutEnvelope(envelope: Envelope)
    | RemoveEnvelope(id: Str)
    | Prepare(msg: Option<Message>, maxHops: int, now: Time, faults: Faults)
    | Reserve(id: Str, relay: Str, faults: Faults)

  /** `PrepareForwardingEnvelope`: one more hop, within the limit, and this relay has seen it. */
  function PrepareForward(c: Config, d: Durable, msg: Option<Message>, maxHops: int, now: Time, f: Faults)
    : (Durable, Option<Envelope>)
  {
    if !ValidMessage(msg) then (d, None)
    else
      var m := msg.value;
      var e := EnvelopeState(c, d, m, c.relayId, f);
      if e.None? then (d, None)
      else
        var d1 := if c.marking == NoEnvelopeStore then d else d.(envelopes := d.envelopes[m.id := e.value]);
        var hops := e.value.hops + 1;
        if now > e.value.expires || (maxHops > 0 && hops > maxHops) then (d1, None)
        else
          var out := e.value.(hops := hops);
          if c.marking == NoEnvelopeStore then (d1, Some(out))
          else if f.markCalls == 0 || !Valid(out) then (d1, None)
          else
            var d2 := d1.(envelopes := d1.envelopes[out.id := out]);
            if c.relayId == [] then (d2, Some(out))
            else if f.markCalls == 1 then (d2, None)
            else (WithSeen(d2, out.id, [c.relayId]), Some(out))
  }

  /** `ReserveForwardingCandidate`: true once per envelope and relay. */
  function ReserveCandidate(c: Config, d: Durable, id: Str, relay: Str, f: Faults): (Durable, Option<bool>)
  {
    if c.marking == NoEnvelopeStore || id == [] || relay == [] then (d, Some(true))
    else if !f.isSeen then (d, None)
    else if SeenKey(id, relay) in d.seen then (d, Some(false))
    else if f.markCalls == 0 then (d, None)
    else (WithSeen(d, id, [relay]), Some(true))
  }

  function Step(c: Config, d: Durable, op: Op): Result
  {
    match op
    case Forward(source, msg, maxPayload, now, f) => Accept(c, d, source, msg, maxPayload, now, f)
    case AddMessage(id) => Result(d.(messages := d.messages + {id}), NotForwarded, [])
    case RemoveMessage(id) => Result(d.(messages := d.messages - {id}), NotForwarded, [])
    case PutEnvelope(e) => Result(d.(envelopes := d.envelopes[e.id := e]), NotForwarded, [])
    case RemoveEnvelope(id) => Result(d.(envelopes := d.envelopes - {id}), NotForwarded, [])
    case Prepare(msg, maxHops, now, f) => Result(PrepareForward(c, d, msg, maxHops, now, f).0, NotForwarded, [])
    case Reserve(id, relay, f) => Result(ReserveCandidate(c, d, id, relay, f).0, NotForwarded, [])
  }

  function Run(c: Config, d: Durable, ops: seq<Op>): Durable
    decreases |ops|
  {
    if ops == [] then d else Run(c, Step(c, d, ops[0]).store, ops[1..])
  }

  function CountFor(signals: seq<Signal>, id: Str): nat
  {
    if signals == [] then 0 else (if signals[0].itemId == id then 1 else 0) + CountFor(signals[1..], id)
  }

  /** How often an item is signalled in a run. */
  function Signals(c: Config, d: Durable, ops: seq<Op>, id: Str): nat
    decreases |ops|
  {
    if ops == [] then 0
    else
      var r := Step(c, d, ops[0]);
      CountFor(r.signals, id) + Signals(c, r.store, ops[1..], id)
  }

  // ---- at most one signal

  /** What one call does to markers and signals. */
  lemma CallAndMarkers(c: Config, d: Durable, op: Op)
    requires c.marking != NoEnvelopeStore
    ensures var r := Step(c, d, op);
            && d.markers <= r.store.markers
            && |r.signals| <= 1
            && r.store.markers - d.markers == (set s | s in r.signals :: s.itemId)
            && (forall s | s in r.signals :: s.itemId !in d.markers)
  {
    hide Valid; hide Enumerate; hide EnvelopeState; hide WithSeen;
    WithSeenKeeps(d);
    match op {
      case Forward(source, msg, maxPayload, now, f) =>
        if ValidMessage(msg) {
          var d1 := d.(messages := d.messages + {msg.value.id});
          IngestedMarkers(c, d1, source, msg.value, msg.value.id in d.messages,
                          source != [] && SeenKey(msg.value.id, source) in d.seen, f);
        }
      case _ => PrepareKeepsMarkers(c, d, op);
    }
  }

  lemma WithSeenKeeps(d: Durable)
    ensures forall id, relays ::
              WithSeen(d, id, relays).markers == d.markers && WithSeen(d, id, relays).messages == d.messages
  {
  }

  lemma PrepareKeepsMarkers(c: Config, d: Durable, op: Op)
    requires !op.Forward?
    ensures Step(c, d, op).store.markers == d.markers && Step(c, d, op).signals == []
  {
    hide Valid; hide EnvelopeState;
  }

  /** After the message is durable: a signal goes out exactly when the marker appears, and then
      message and marker are both durable. */
  lemma IngestedMarkers(c: Config, d: Durable, source: Str, m: Message, existed: bool, seenBySource: bool, f: Faults)
    requires c.marking != NoEnvelopeStore && m.id in d.messages
    ensures var r := Ingested(c, d, source, m, existed, seenBySource, f);
            && r.store.messages == d.messages
            && (r.store.markers == d.markers || r.store.markers == d.markers + {m.id})
            && r.signals == (if r.store.markers != d.markers then [Signal(m.id, source != [], source)] else [])
            && (r.outcome.Done? ==> m.id in r.store.markers)
  {
    hide Valid; hide Enumerate; hide EnvelopeState; hide SeenRelays;
    var e := EnvelopeState(c, d, m, source, f);
    if e.Some? {
      var d1 := d.(envelopes := d.envelopes[m.id := e.value]);
      var (d2, marked) := MarkIngest(c, d1, m.id, SeenRelays(source, c.relayId), f.markCalls);
      assert d2.messages == d.messages;
      assert marked.Some? ==> d2.markers == d.markers + {m.id} && marked.value == (m.id !in d.markers);
      assert m.id in d.markers ==> d.markers + {m.id} == d.markers;
    }
  }

  /** Every signal is sent after its message and its marker are durable. */
  lemma SignalAfterDurable(c: Config, d: Durable, op: Op, s: Signal)
    requires c.marking != NoEnvelopeStore && s in Step(c, d, op).signals
    ensures s.itemId in Step(c, d, op).store.messages && s.itemId in Step(c, d, op).store.markers
    ensures op.Forward? && ValidMessage(op.msg) && s.itemId == op.msg.value.id
  {
    hide Valid; hide Ingested;
    PrepareKeepsMarkersUnlessForward(c, d, op);
    var m := op.msg.value;
    IngestedMarkers(c, d.(messages := d.messages + {m.id}), op.source, m, m.id in d.messages,
                    op.source != [] && SeenKey(m.id, op.source) in d.seen, op.faults);
  }

  lemma PrepareKeepsMarkersUnlessForward(c: Config, d: Durable, op: Op)
    ensures op.Forward? || Step(c, d, op).signals == []
    ensures op.Forward? && !ValidMessage(op.msg) ==> Step(c, d, op).signals == []
  {
    if !op.Forward? { PrepareKeepsMarkers(c, d, op); }
  }

  /** Over every run, whatever fails and whatever is swept: an item is signalled exactly as
      often as its marker newly appears, so at most once. */
  lemma {:induction false} AtMostOneSignal(c: Config, d: Durable, ops: seq<Op>, id: Str)
    requires c.marking != NoEnvelopeStore
    ensures d.markers <= Run(c, d, ops).markers
    ensures Signals(c, d, ops, id) == if id in Run(c, d, ops).markers && id !in d.markers then 1 else 0
    decreases |ops|
  {
    hide Step;
    if ops != [] {
      var r := Step(c, d, ops[0]);
      CallAndMarkers(c, d, ops[0]);
      AtMostOneSignal(c, r.store, ops[1..], id);
      OneOrNone(r.signals, id);
      assert (exists s | s in r.signals :: s.itemId == id) <==> id in (set s | s in r.signals :: s.itemId);
      assert id in r.store.markers - d.markers <==> id in r.store.markers && id !in d.markers;
    }
  }

  lemma OneOrNone(signals: seq<Signal>, id: Str)
    requires |signals| <= 1
    ensures CountFor(signals, id) == if (exists s | s in signals :: s.itemId == id) then 1 else 0
  {
    if signals != [] { assert signals == [signals[0]] && signals[1..] == []; }
  }

  /** Without an envelope store a swept message is signalled again. */
  lemma NoStoreSignalsAgain(c: Config, m: Message, now: Time)
    requires c.marking == NoEnvelopeStore && ValidMessage(Some(m)) && now <= m.expires
    ensures var all := Faults(true, true, true, true, true, 9);
            var call := Forward([], Some(m), 0, now, all);
            Signals(c, Durable({}, map[], {}, {}), [call, RemoveMessage(m.id), call], m.id) == 2
  {
    var all := Faults(true, true, true, true, true, 9);
    var call := Forward([], Some(m), 0, now, all);
    var d0 := Durable({}, map[], {}, {});
    var sweep := RemoveMessage(m.id);
    var ops := [call, sweep, call];
    assert Step(c, d0, call).signals == [Signal(m.id, false, [])];
    var d1 := Step(c, d0, call).store;
    var d2 := Step(c, d1, sweep).store;
    assert m.id !in d2.messages;
    assert Step(c, d2, call).signals == [Signal(m.id, false, [])];
    OneOrNone([Signal(m.id, false, [])], m.id);
    assert Signal(m.id, false, []) in [Signal(m.id, false, [])];
    assert ops[1..] == [sweep, call] && [sweep, call][1..] == [call] && [call][1..] == [];
    assert Signals(c, d2, [call], m.id) == 1;
    assert Signals(c, d1, [sweep, call], m.id) == 1;
  }

  // ---- loop suppression

  lemma CallKeepsSeen(c: Config, d: Durable, op: Op)
    ensures d.seen <= Step(c, d, op).store.seen
  {
    hide Valid; hide Enumerate; hide EnvelopeState;
    if op.Forward? && ValidMessage(op.msg) {
      var m := op.msg.value;
      IngestedKeepsSeen(c, d.(messages := d.messages + {m.id}), op.source, m, m.id in d.messages,
                        c.marking != NoEnvelopeStore && op.source != [] && SeenKey(m.id, op.source) in d.seen,
                        op.faults);
    }
  }

  lemma IngestedKeepsSeen(c: Config, d: Durable, source: Str, m: Message, existed: bool, seenBySource: bool, f: Faults)
    ensures var r := Ingested(c, d, source, m, existed, seenBySource, f);
            && d.seen <= r.store.seen
            && (r.outcome.Done? && c.marking != NoEnvelopeStore && source != [] ==>
                  SeenKey(m.id, source) in r.store.seen)
  {
    hide Valid; hide Enumerate; hide EnvelopeState;
    assert source != [] ==> source in Elements(SeenRelays(source, c.relayId));
  }

  function TakeIns(c: Config, d: Durable, ops: seq<Op>, id: Str, source: Str): nat
    decreases |ops|
  {
    if ops == [] then 0
    else
      (if Unsuppressed(c, d, ops[0], id, source) then 1 else 0)
      + TakeIns(c, Step(c, d, ops[0]).store, ops[1..], id, source)
  }

  /** A successful call that took the item in from the source. */
  predicate Unsuppressed(c: Config, d: Durable, op: Op, id: Str, source: Str)
  {
    && op.Forward? && op.source == source && op.msg.Some? && op.msg.value.id == id
    && Step(c, d, op).outcome.Done?
    && Step(c, d, op).outcome.status in {Accepted, Duplicate}
  }

  /** Taking an item in from a source marks the pair; once marked, every further success is
      Expired or SeenLoop. */
  lemma MarkedSuppresses(c: Config, d: Durable, op: Op, id: Str, source: Str)
    requires c.marking != NoEnvelopeStore && source != []
    ensures Unsuppressed(c, d, op, id, source) ==> SeenKey(id, source) in Step(c, d, op).store.seen
    ensures SeenKey(id, source) in d.seen ==> !Unsuppressed(c, d, op, id, source)
    ensures op.Forward? && op.source == source && ValidMessage(op.msg) && op.msg.value.id == id
            && op.now <= op.msg.value.expires && Step(c, d, op).outcome.Done? ==>
              (Step(c, d, op).outcome.status == SeenLoop <==> SeenKey(id, source) in d.seen)
  {
    hide Valid; hide Enumerate; hide EnvelopeState; hide MarkIngest; hide SeenKey;
    if op.Forward? && ValidMessage(op.msg) && op.msg.value.id == id && op.source == source {
      var m := op.msg.value;
      IngestedKeepsSeen(c, d.(messages := d.messages + {m.id}), source, m, m.id in d.messages,
                        SeenKey(m.id, source) in d.seen, op.faults);
    }
  }

  /** Loop suppression is permanent: in a whole run at most one successful call takes an item in
      from a source, none if the pair was marked before. */
  lemma {:induction false} AtMostOneTakeIn(c: Config, d: Durable, ops: seq<Op>, id: Str, source: Str)
    requires c.marking != NoEnvelopeStore && source != []
    ensures TakeIns(c, d, ops, id, source) <= if SeenKey(id, source) in d.seen then 0 else 1
    ensures TakeIns(c, d, ops, id, source) == 1 ==> SeenKey(id, source) in Run(c, d, ops).seen
    ensures d.seen <= Run(c, d, ops).seen
    decreases |ops|
  {
    hide Step; hide Unsuppressed; hide SeenKey;
    if ops != [] {
      MarkedSuppresses(c, d, ops[0], id, source);
      CallKeepsSeen(c, d, ops[0]);
      AtMostOneTakeIn(c, Step(c, d, ops[0]).store, ops[1..], id, source);
    }
  }

  /** A forwarding target is reserved at most once per envelope and relay, for ever. */
  lemma ReservedOnce(c: Config, d: Durable, id: Str, relay: Str, f: Faults, ops: seq<Op>, g: Faults)
    requires c.marking != NoEnvelopeStore && id != [] && relay != []
    requires ReserveCandidate(c, d, id, relay, f).1 == Some(true)
    ensures ReserveCandidate(c, Run(c, ReserveCandidate(c, d, id, relay, f).0, ops), id, relay, g).1 != Some(true)
  {
    var d1 := ReserveCandidate(c, d, id, relay, f).0;
    assert SeenKey(id, relay) in d1.seen by { assert relay in [relay]; }
    AtMostOneTakeIn(c, d1, ops, id, relay);
  }

  /** The hop count a forward goes out with never passes a positive limit, and the stored
      envelope carries it on. */
  lemma HopsWithinLimit(c: Config, d: Durable, msg: Option<Message>, maxHops: int, now: Time, f: Faults)
    requires c.marking != NoEnvelopeStore
    ensures var (d', out) := PrepareForward(c, d, msg, maxHops, now, f);
            out.Some? ==>
              && (maxHops > 0 ==> out.value.hops <= maxHops)
              && now <= out.value.expires
              && out.value.id in d'.envelopes && d'.envelopes[out.value.id] == out.value
              && out.value.hops == (if msg.value.id in d.envelopes then d.envelopes[msg.value.id].hops else 0) + 1
  {
    hide Valid;
  }

  // ---- what a call does when the stores work

  /** The envelope of a message: the stored one, or one made of it, with its origin filled in. */
  function EnvelopeFor(known: Option<Envelope>, m: Message, origin: Str): (e: Envelope)
    ensures known.Some? ==> e == known.value.(origin := e.origin)
    ensures e.origin == if known.Some? && known.value.origin != [] then known.value.origin else origin
    ensures known.None? ==> e.id == m.id && e.destination == m.to && e.payload == m.payload && e.hops == 0
    ensures known.None? ==> e.created == m.created && e.expires == m.expires
  {
    var e := if known.Some? then known.value else Envelope(m.id, m.to, m.payload, [], 0, m.created, m.expires);
    if e.origin == [] then e.(origin := origin) else e
  }

  function StoredFor(d: Durable, id: Str): Option<Envelope> {
    if id in d.envelopes then Some(d.envelopes[id]) else None
  }

  predicate AllWork(f: Faults)
  {
    f.isSeen && f.getMessage && f.persistMessage && f.getEnvelope && f.persistEnvelope && f.markCalls > 2
  }

  /** The pairs a call marks: the item with its source and with this relay, where they have names. */
  function MarksOf(id: Str, source: Str, local: Str): set<Str>
  {
    (if source != [] then {SeenKey(id, source)} else {}) + (if local != [] then {SeenKey(id, local)} else {})
  }

  lemma SeenRelaysAre(source: Str, local: Str)
    ensures Elements(SeenRelays(source, local)) == {source, local} - {[]} && |SeenRelays(source, local)| <= 2
  {
    hide Enumerate;
    var s := SeenRelays(source, local);
    SortedDistinct(s);
    DistinctCount(s);
    assert {source, local} - {[]} <= {source, local};
    PairSize(source, local);
  }

  lemma PairSize(a: Str, b: Str)
    ensures |{a, b} - {[]}| <= 2
  {
    var s := {a, b} - {[]};
    assert s == (if a == [] then {} else {a}) + (if b == [] || b == a then {} else {b});
  }

  lemma MarkedAre(d: Durable, id: Str, source: Str, local: Str)
    ensures WithSeen(d, id, SeenRelays(source, local)) == d.(seen := d.seen + MarksOf(id, source, local))
  {
    hide Enumerate; hide SeenKey;
    SeenRelaysAre(source, local);
    var relays := SeenRelays(source, local);
    assert forall r :: r in relays <==> r in Elements(relays);
    assert (set r | r in relays :: SeenKey(id, r)) == MarksOf(id, source, local);
  }

  /** A valid, unexpired message within the limit, with an envelope store and working calls: a loop
      when the pair was marked and the message is gone, and otherwise taken in, as new iff the
      message was absent, as a duplicate iff it was there and the pair was not marked. Then
      message, envelope, both marks and the marker are durable, and one signal goes out iff the
      marker is new. */
  lemma TakesIn(c: Config, d: Durable, source: Str, m: Message, maxPayload: int, now: Time, f: Faults)
    requires c.marking != NoEnvelopeStore && AllWork(f) && ValidMessage(Some(m)) && now <= m.expires
    requires maxPayload > 0 ==> |m.payload| <= maxPayload
    ensures var r, e := Accept(c, d, source, Some(m), maxPayload, now, f), EnvelopeFor(StoredFor(d, m.id), m, source);
            var there, marked := m.id in d.messages, source != [] && SeenKey(m.id, source) in d.seen;
            if !there && marked then r == Result(d, Done(SeenLoop, None), [])
            else if !Valid(e) then r == Result(d.(messages := d.messages + {m.id}), Failed(StoreFailure), [])
            else
              && (r.outcome == Done(Accepted, Some(e)) <==> !there)
              && (r.outcome == Done(Duplicate, Some(e)) <==> there && !marked)
              && (r.outcome == Done(SeenLoop, Some(e)) <==> there && marked)
              && r.store == Durable(d.messages + {m.id}, d.envelopes[m.id := e],
                                    d.seen + MarksOf(m.id, source, c.relayId), d.markers + {m.id})
              && r.signals == (if m.id in d.markers then [] else [Signal(m.id, source != [], source)])
    ensures m.id !in d.envelopes && m.created <= m.expires ==> Valid(EnvelopeFor(StoredFor(d, m.id), m, source))
  {
    hide Enumerate; hide SeenRelays; hide WithSeen; hide SeenKey; hide MarksOf;
    var d1 := d.(messages := d.messages + {m.id});
    var d2 := d1.(envelopes := d.envelopes[m.id := EnvelopeFor(StoredFor(d, m.id), m, source)]);
    SeenRelaysAre(source, c.relayId);
    MarkedAre(d2, m.id, source, c.relayId);
    var e := EnvelopeFor(StoredFor(d, m.id), m, source);
    assert EnvelopeState(c, d1, m, source, f) == if Valid(e) then Some(e) else None;
  }

  /** Without an envelope store a message is new iff it was absent, and then signalled. */
  lemma TakesInWithoutStore(c: Config, d: Durable, source: Str, m: Message, maxPayload: int, now: Time, f: Faults)
    requires c.marking == NoEnvelopeStore && f.getMessage && f.persistMessage
    requires ValidMessage(Some(m)) && now <= m.expires
    requires maxPayload > 0 ==> |m.payload| <= maxPayload
    ensures var r := Accept(c, d, source, Some(m), maxPayload, now, f);
            && r.outcome.Done? && r.outcome.status == (if m.id in d.messages then Duplicate else Accepted)
            && r.store == d.(messages := d.messages + {m.id})
            && r.signals == (if m.id in d.messages then [] else [Signal(m.id, source != [], source)])
  {
  }

  /** What is refused before any store is asked, and what each failing store call leaves behind. */
  lemma RefusalsMean(c: Config, d: Durable, source: Str, msg: Option<Message>, maxPayload: int, now: Time, f: Faults)
    ensures var r := Accept(c, d, source, msg, maxPayload, now, f);
            && (r.outcome == Failed(InvalidMessage) <==>
                  msg.None? || [] in [msg.value.id, msg.value.from, msg.value.to, msg.value.payload]
                  || ZERO_TIME in [msg.value.created, msg.value.expires])
            && (r.outcome == Failed(PayloadTooLarge) <==>
                  ValidMessage(msg) && maxPayload > 0 && |msg.value.payload| > maxPayload)
            && (r.outcome == Done(Expired, None) <==>
                  && ValidMessage(msg) && !(maxPayload > 0 && |msg.value.payload| > maxPayload)
                  && now > msg.value.expires)
            && (!ValidMessage(msg) || (maxPayload > 0 && |msg.value.payload| > maxPayload) || now > msg.value.expires
                ==> r.store == d && r.signals == [])
            && (r.outcome.Failed? ==> r.signals == [] && r.store.markers == d.markers)
  {
    hide Valid; hide Enumerate; hide EnvelopeState; hide WithSeen;
    WithSeenKeeps(d);
    if ValidMessage(msg) {
      var m := msg.value;
      IngestFails(c, d.(messages := d.messages + {m.id}), source, m, m.id in d.messages,
                  c.marking != NoEnvelopeStore && source != [] && SeenKey(m.id, source) in d.seen, f);
    }
  }

  lemma IngestFails(c: Config, d: Durable, source: Str, m: Message, existed: bool, seenBySource: bool, f: Faults)
    ensures var r := Ingested(c, d, source, m, existed, seenBySource, f);
            && (r.outcome.Failed? ==>
                  r.outcome == Failed(StoreFailure) && r.signals == [] && r.store.markers == d.markers)
            && (r.outcome.Done? ==> r.outcome.status != Expired)
  {
    hide Valid; hide Enumerate; hide EnvelopeState; hide SeenRelays;
  }

  /** Each pair of item and relay has its own seen key. */
  lemma SeenKeysIsolate(id: Str, relay: Str, id': Str, relay': Str)
    requires NulFree(id) && NulFree(id')
    ensures SeenKey(id, relay) == SeenKey(id', relay') <==> id == id' && relay == relay'
  {
    if SeenKey(id, relay) == SeenKey(id', relay') { NulSeparated(id, relay, id', relay'); }
  }

  /** Marking in steps writes the keys in relay order, one for each call, and the marker last; in one
      transaction it writes all or nothing. */
  lemma MarksInSteps(c: Config, d: Durable, id: Str, relays: seq<Str>, calls: nat)
    requires c.marking != NoEnvelopeStore
    ensures var (d', created) := MarkIngest(c, d, id, relays, calls);
            var done := if c.marking == Atomic then (if calls == 0 then 0 else |relays|)
                        else if calls < |relays| then calls else |relays|;
            var all := if c.marking == Atomic then calls > 0 else calls > |relays|;
            && (forall k :: k in d'.seen <==> k in d.seen || exists i | 0 <= i < done :: k == SeenKey(id, relays[i]))
            && (created.Some? <==> all) && (created.Some? ==> created.value == (id !in d.markers))
            && d'.markers == (if all then d.markers + {id} else d.markers)
            && d'.messages == d.messages && d'.envelopes == d.envelopes
  {
    hide SeenKey;
  }

  /** A forwarding target is granted iff it was not marked, or there is nothing to mark; granting
      marks exactly it. */
  lemma ReserveMeans(c: Config, d: Durable, id: Str, relay: Str, f: Faults)
    requires f.isSeen && f.markCalls > 0
    ensures var (d', granted) := ReserveCandidate(c, d, id, relay, f);
            var tracked := c.marking != NoEnvelopeStore && id != [] && relay != [];
            && granted == Some(!tracked || SeenKey(id, relay) !in d.seen)
            && d' == (if tracked then d.(seen := d.seen + {SeenKey(id, relay)}) else d)
  {
    hide SeenKey;
    assert d.seen + {SeenKey(id, relay)} == d.seen + set r | r in [relay] :: SeenKey(id, r);
    if SeenKey(id, relay) in d.seen { assert d.seen + {SeenKey(id, relay)} == d.seen; }
  }

  /** An envelope is prepared for forwarding iff the message is valid, the envelope can be stored and
      is unexpired, and one hop more keeps to a positive limit; this relay has then seen it. */
  lemma PrepareMeans(c: Config, d: Durable, m: Message, maxHops: int, now: Time, f: Faults)
    requires c.marking != NoEnvelopeStore && AllWork(f) && ValidMessage(Some(m))
    requires m.id in d.envelopes ==> d.envelopes[m.id].id == m.id
    ensures var e := EnvelopeFor(StoredFor(d, m.id), m, c.relayId);
            var next := e.(hops := e.hops + 1);
            var (d', out) := PrepareForward(c, d, Some(m), maxHops, now, f);
            && (out.Some? <==> Valid(e) && now <= e.expires && (maxHops > 0 ==> e.hops + 1 <= maxHops))
            && (out.Some? ==>
                  && out.value == next
                  && d' == d.(envelopes := d.envelopes[m.id := next], seen := d.seen + MarksOf(m.id, [], c.relayId)))
  {
    hide SeenKey;
    var e := EnvelopeFor(StoredFor(d, m.id), m, c.relayId);
    assert EnvelopeState(c, d, m, c.relayId, f) == if Valid(e) then Some(e) else None;
    assert (set r | r in [c.relayId] :: SeenKey(m.id, r)) == {SeenKey(m.id, c.relayId)};
    assert d.envelopes[m.id := e][m.id := e.(hops := e.hops + 1)] == d.envelopes[m.id := e.(hops := e.hops + 1)];
  }
}
