/** The session adapter: an incremental decoder of length-prefixed frames and the receipt
    automaton (internal/gossipv1/session.go). */
module Sessions {
  import opened ByteStrings
  import opened GossipLimits
  import opened Ordered
  import opened Protocol
  import opened Transfer

  datatype Cause =
    | ZeroLength | TooLong | BadEnvelope | BadPayload | UnknownKind
    | UnexpectedReceipt | ReceiptForEmptyTransfer | UnknownReceiptId | DuplicateAck

  /** The frame types this version knows. */
  datatype Kind = HELLO | SUMMARY | REQUEST | TRANSFER | RECEIPT | RELAY_INGEST | UnknownFrame

  function KindNamed(name: string): Kind
  {
    if name == "HELLO" then HELLO
    else if name == "SUMMARY" then SUMMARY
    else if name == "REQUEST" then REQUEST
    else if name == "TRANSFER" then TRANSFER
    else if name == "RECEIPT" then RECEIPT
    else if name == "RELAY_INGEST" then RELAY_INGEST
    else UnknownFrame
  }

  datatype Event =
    | HelloValidated(hello: Hello)
    | SummaryReceived(summary: Summary)
    | RequestReceived(want: seq<Str>)
    | TransferReceived(transfer: ParsedTransfer)
    | ReceiptReceived(accepted: seq<Str>, expected: seq<Str>)
    | RelayIngest(ids: seq<Str>)
    | UntrustedRelayIngest(ids: seq<Str>)
    | Fatal(kind: string, cause: Cause)

  datatype State = State(
    buffer: Str, trusted: bool, helloValidated: bool, terminated: bool, lastKind: string, untrusted: nat,
    awaiting: bool, order: seq<Str>, index: map<Str, nat>)

  function Fresh(trusted: bool): State { State([], trusted, false, false, "", 0, false, [], map[]) }

  /** Open for anything but HELLO. */
  predicate Healthy(s: State) { !s.terminated && s.helloValidated }

  // ---- framing

  datatype Cut = Incomplete | BadLength(cause: Cause) | Cut(frame: Str, rest: Str)

  /** The next frame of a buffer, if its length is acceptable and all of it has arrived. */
  function NextFrame(buffer: Str): (c: Cut)
    ensures c.Cut? ==> |c.rest| < |buffer| && 0 < |c.frame| <= MAX_FRAME
  {
    if |buffer| < 4 then Incomplete
    else
      var n := FromBigEndian(buffer[..4]);
      if n == 0 then BadLength(ZeroLength)
      else if n > MAX_FRAME then BadLength(TooLong)
      else if |buffer| < 4 + n then Incomplete
      else Cut(buffer[4..4 + n], buffer[4 + n..])
  }

  /** `EncodeLengthPrefixed`: refuses empty and oversize frames. */
  function Prefixed(frame: Str): Option<Str>
  {
    if frame == [] || |frame| > MAX_FRAME then None else Some(BigEndian(|frame|, 4) + frame)
  }

  // ---- receipts

  /** The order in which distinct non-empty ids are expected. */
  function ExpectedOrder(ids: seq<Str>): seq<Str>
  {
    if ids == [] then []
    else
      var before, id := ExpectedOrder(ids[..|ids| - 1]), ids[|ids| - 1];
      if id == [] || id in before then before else before + [id]
  }

  function IndexOf(order: seq<Str>): map<Str, nat>
  {
    if order == [] then map[] else IndexOf(order[..|order| - 1])[order[|order| - 1] := |order| - 1]
  }

  function SetExpected(s: State, ids: seq<Str>): State
  {
    s.(awaiting := true, order := ExpectedOrder(ids), index := IndexOf(ExpectedOrder(ids)))
  }

  /** The first thing wrong with the acknowledged ids from position `i`. */
  function AckFault(index: map<Str, nat>, accepted: seq<Str>, i: nat): Option<Cause>
    requires i <= |accepted|
    decreases |accepted| - i
  {
    if i == |accepted| then None
    else if accepted[i] !in index then Some(UnknownReceiptId)
    else if accepted[i] in accepted[..i] then Some(DuplicateAck)
    else AckFault(index, accepted, i + 1)
  }

  function ReceiptFault(s: State, accepted: seq<Str>): Option<Cause>
  {
    if !s.awaiting then Some(UnexpectedReceipt)
    else if s.order == [] then (if accepted == [] then None else Some(ReceiptForEmptyTransfer))
    else AckFault(s.index, accepted, 0)
  }

  // ---- one frame

  function Stop(s: State, kind: string, cause: Cause): (State, Event) { (s.(terminated := true), Fatal(kind, cause)) }

  function HandleFrame(w: World, s: State, frame: Str): (State, Event)
  {
    var f := w.unmarshal(frame);
    if f.None? || f.value.kind == "" then Stop(s, "", BadEnvelope)
    else HandlePayload(w, s.(lastKind := f.value.kind), f.value.kind, f.value.payload)
  }

  function HandlePayload(w: World, s: State, name: string, p: Payload): (State, Event)
  {
    HandleKind(w, s, KindNamed(name), name, p)
  }

  function HandleKind(w: World, s: State, kind: Kind, name: string, p: Payload): (State, Event)
  {
    match kind
    case HELLO => HandleHello(w, s, name, p)
    case RELAY_INGEST => HandleRelayIngest(s, name, p)
    case RECEIPT =>
      var ids := ParseReceipt(p);
      if ids.None? then Stop(s, name, BadPayload) else HandleReceipt(s, name, ids.value)
    case UnknownFrame => Stop(s, name, UnknownKind)
    case _ =>
      var e := Content(w, kind, p);
      if e.None? then Stop(s, name, BadPayload) else (s, e.value)
  }

  function HandleHello(w: World, s: State, name: string, p: Payload): (State, Event)
  {
    var h := ParseHello(w, p);
    if h.None? then Stop(s, name, BadPayload) else (s.(helloValidated := true), HelloValidated(h.value))
  }

  function HandleRelayIngest(s: State, name: string, p: Payload): (State, Event)
  {
    var ids := ParseRelayIngest(p);
    if ids.None? then Stop(s, name, BadPayload)
    else if !s.trusted then (s.(untrusted := s.untrusted + 1), UntrustedRelayIngest(ids.value))
    else (s, RelayIngest(ids.value))
  }

  /** The events that leave the session as it is. */
  function Content(w: World, kind: Kind, p: Payload): (e: Option<Event>)
    ensures e.Some? ==> e.value.SummaryReceived? || e.value.RequestReceived? || e.value.TransferReceived?
  {
    match kind
    case SUMMARY =>
      var m := ParseSummary(p);
      if m.None? then None else Some(SummaryReceived(m.value))
    case REQUEST =>
      var want := ParseRequest(p);
      if want.None? then None else Some(RequestReceived(want.value))
    case TRANSFER =>
      var items := TransferItems(p);
      if items.None? then None else Some(TransferReceived(ParseList(w, items.value)))
    case _ => None
  }

  /** A receipt that checks out settles the pending transfer. */
  function HandleReceipt(s: State, name: string, accepted: seq<Str>): (State, Event)
  {
    var fault := ReceiptFault(s, accepted);
    if fault.Some? then Stop(s, name, fault.value)
    else (s.(awaiting := false, order := [], index := map[]), ReceiptReceived(accepted, s.order))
  }

  // ---- one push

  /** Consumes every complete frame; stops at the first fatal one. */
  function Drain(w: World, s: State): (State, seq<Event>)
    decreases |s.buffer|
  {
    match NextFrame(s.buffer)
    case Incomplete => (s, [])
    case BadLength(cause) => var (s1, e) := Stop(s, "", cause); (s1, [e])
    case Cut(frame, rest) =>
      var (s1, e) := HandleFrame(w, s.(buffer := rest), frame);
      if s1.terminated then (s1, [e])
      else
        HandleKeepsBuffer(w, s.(buffer := rest), frame);
        var (s2, es) := Drain(w, s1);
        (s2, [e] + es)
  }

  function Push(w: World, s: State, chunk: Str): (State, seq<Event>)
  {
    if s.terminated || chunk == [] then (s, []) else Drain(w, s.(buffer := s.buffer + chunk))
  }

  lemma HandleKeepsBuffer(w: World, s: State, frame: Str)
    ensures HandleFrame(w, s, frame).0.buffer == s.buffer
    ensures HandleFrame(w, s, frame).0.terminated == (s.terminated || HandleFrame(w, s, frame).1.Fatal?)
  {
    hide KindNamed; hide ParseHello; hide Content; hide ParseReceipt; hide ParseRelayIngest; hide ReceiptFault;
  }

  lemma ReceiptIgnoresBuffer(s: State, name: string, accepted: seq<Str>, buffer: Str)
    ensures var (s1, e) := HandleReceipt(s, name, accepted);
            HandleReceipt(s.(buffer := buffer), name, accepted) == (s1.(buffer := buffer), e)
  {
    hide AckFault;
  }

  lemma HelloIgnoresBuffer(w: World, s: State, name: string, p: Payload, buffer: Str)
    ensures var (s1, e) := HandleHello(w, s, name, p);
            HandleHello(w, s.(buffer := buffer), name, p) == (s1.(buffer := buffer), e)
  {
    hide ParseHello;
  }

  lemma RelayIngestIgnoresBuffer(s: State, name: string, p: Payload, buffer: Str)
    ensures var (s1, e) := HandleRelayIngest(s, name, p);
            HandleRelayIngest(s.(buffer := buffer), name, p) == (s1.(buffer := buffer), e)
  {
    hide ParseRelayIngest;
  }

  lemma KindIgnoresBuffer(w: World, s: State, kind: Kind, name: string, p: Payload, buffer: Str)
    ensures var (s1, e) := HandleKind(w, s, kind, name, p);
            HandleKind(w, s.(buffer := buffer), kind, name, p) == (s1.(buffer := buffer), e)
  {
    hide Content; hide ParseReceipt; hide HandleHello; hide HandleRelayIngest; hide HandleReceipt;
    match kind {
      case HELLO => HelloIgnoresBuffer(w, s, name, p, buffer);
      case RELAY_INGEST => RelayIngestIgnoresBuffer(s, name, p, buffer);
      case RECEIPT =>
        var ids := ParseReceipt(p);
        if ids.Some? { ReceiptIgnoresBuffer(s, name, ids.value, buffer); }
      case _ =>
    }
  }

  /** Handling looks at everything but the buffer. */
  lemma HandleIgnoresBuffer(w: World, s: State, frame: Str, buffer: Str)
    ensures var (s1, e) := HandleFrame(w, s, frame);
            HandleFrame(w, s.(buffer := buffer), frame) == (s1.(buffer := buffer), e)
  {
    hide HandleKind; hide KindNamed;
    var f := w.unmarshal(frame);
    if f.Some? {
      var name := f.value.kind;
      KindIgnoresBuffer(w, s.(lastKind := name), KindNamed(name), name, f.value.payload, buffer);
    }
  }

  // ---- exactly when and why

  /** A buffer is cut, waits or ends the session exactly by the length it announces. */
  lemma FrameLengths(buffer: Str)
    requires |buffer| >= 4
    ensures var n := FromBigEndian(buffer[..4]);
            && (NextFrame(buffer) == BadLength(ZeroLength) <==> n == 0)
            && (NextFrame(buffer) == BadLength(TooLong) <==> n > MAX_FRAME)
            && (NextFrame(buffer).Incomplete? <==> 0 < n <= MAX_FRAME && |buffer| < 4 + n)
            && (NextFrame(buffer).Cut? <==> 0 < n <= MAX_FRAME && |buffer| >= 4 + n)
  {
  }

  /** The reason a receipt is refused for: none awaited, something for an empty transfer, or the
      first id that is unknown or repeated. */
  lemma FaultMeans(s: State, accepted: seq<Str>, i: nat)
    requires i < |accepted| && s.awaiting && s.order != []
    requires (forall k | 0 <= k < i :: accepted[k] in s.index && accepted[k] !in accepted[..k])
    ensures ReceiptFault(s.(awaiting := false), accepted) == Some(UnexpectedReceipt)
    ensures ReceiptFault(s.(order := []), accepted) == Some(ReceiptForEmptyTransfer)
    ensures accepted[i] !in s.index ==> ReceiptFault(s, accepted) == Some(UnknownReceiptId)
    ensures accepted[i] in s.index && accepted[i] in accepted[..i] ==> ReceiptFault(s, accepted) == Some(DuplicateAck)
  {
    FaultFrom(s.index, accepted, 0, i);
  }

  lemma {:induction false} FaultFrom(index: map<Str, nat>, accepted: seq<Str>, j: nat, i: nat)
    requires j <= i < |accepted| && forall k | j <= k < i :: accepted[k] in index && accepted[k] !in accepted[..k]
    ensures AckFault(index, accepted, j) == AckFault(index, accepted, i)
    decreases i - j
  {
    if j < i { FaultFrom(index, accepted, j + 1, i); }
  }

  /** An ingest notice is passed on from a relay that is trusted, and counted otherwise. */
  lemma IngestByTrust(w: World, s: State, p: Payload, ids: seq<Str>)
    requires ParseRelayIngest(p) == Some(ids)
    ensures HandlePayload(w, s, "RELAY_INGEST", p) ==
            if s.trusted then (s, RelayIngest(ids)) else (s.(untrusted := s.untrusted + 1), UntrustedRelayIngest(ids))
  {
    hide ParseRelayIngest;
  }

  /** A frame of no known type, or whose payload does not parse, ends the session. */
  lemma BadFramesEnd(w: World, s: State, name: string, p: Payload)
    ensures KindNamed(name) == UnknownFrame ==> HandlePayload(w, s, name, p) == Stop(s, name, UnknownKind)
    ensures name == "HELLO" && ParseHello(w, p).None? ==> HandlePayload(w, s, name, p) == Stop(s, name, BadPayload)
    ensures name == "SUMMARY" && ParseSummary(p).None? ==> HandlePayload(w, s, name, p) == Stop(s, name, BadPayload)
    ensures name == "REQUEST" && ParseRequest(p).None? ==> HandlePayload(w, s, name, p) == Stop(s, name, BadPayload)
    ensures name == "TRANSFER" && TransferItems(p).None? ==> HandlePayload(w, s, name, p) == Stop(s, name, BadPayload)
    ensures name == "RECEIPT" && ParseReceipt(p).None? ==> HandlePayload(w, s, name, p) == Stop(s, name, BadPayload)
    ensures name == "RELAY_INGEST" && ParseRelayIngest(p).None? ==>
              HandlePayload(w, s, name, p) == Stop(s, name, BadPayload)
    ensures KindNamed(name) == UnknownFrame <==>
              name !in {"HELLO", "SUMMARY", "REQUEST", "TRANSFER", "RECEIPT", "RELAY_INGEST"}
  {
    hide ParseHello; hide ParseSummary; hide ParseRequest; hide TransferItems; hide ParseReceipt; hide ParseRelayIngest;
  }

  class SessionAdapter {
    const w: World
    const trusted: bool
    var buffer: Str
    var helloValidated: bool
    var terminated: bool
    var lastKind: string
    var untrusted: nat
    var awaiting: bool
    var order: seq<Str>
    var index: map<Str, nat>

    function Abs(): State
      reads this
    {
      State(buffer, trusted, helloValidated, terminated, lastKind, untrusted, awaiting, order, index)
    }

    constructor (w: World, trusted: bool)
      ensures this.w == w && Abs() == Fresh(trusted)
    {
      this.w, this.trusted := w, trusted;
      buffer, helloValidated, terminated, lastKind, untrusted := [], false, false, "", 0;
      awaiting, order, index := false, [], map[];
    }

    method SetExpectedReceipt(ids: seq<Str>)
      modifies this
      ensures Abs() == SetExpected(old(Abs()), ids)
    {
      awaiting, order, index := true, [], map[];
      for i := 0 to |ids|
        invariant Abs() == old(Abs()).(awaiting := true, order := order, index := index)
        invariant order == ExpectedOrder(ids[..i]) && index == IndexOf(order) && index.Keys == Elements(order)
      {
        assert ids[..i + 1][..i] == ids[..i];
        if ids[i] != [] && ids[i] !in index {
          assert (order + [ids[i]])[..|order|] == order;
          index := index[ids[i] := |order|];
          order := order + [ids[i]];
        }
      }
      assert ids[..|ids|] == ids;
    }

    method ValidateExpectedReceipt(accepted: seq<Str>) returns (fault: Option<Cause>)
      ensures fault == ReceiptFault(Abs(), accepted)
    {
      if !awaiting { return Some(UnexpectedReceipt); }
      if |order| == 0 { return if |accepted| == 0 then None else Some(ReceiptForEmptyTransfer); }
      var acknowledged: set<Str> := {};
      for i := 0 to |accepted|
        invariant acknowledged == Elements(accepted[..i])
        invariant AckFault(index, accepted, 0) == AckFault(index, accepted, i)
      {
        if accepted[i] !in index { return Some(UnknownReceiptId); }
        if accepted[i] in acknowledged { return Some(DuplicateAck); }
        assert accepted[..i + 1] == accepted[..i] + [accepted[i]];
        acknowledged := acknowledged + {accepted[i]};
      }
      return None;
    }

    /** Buffers a chunk and handles every complete frame in it. */
    method PushInbound(chunk: Str) returns (events: seq<Event>)
      modifies this
      ensures (Abs(), events) == Push(w, old(Abs()), chunk)
    {
      hide HandlePayload; hide NextFrame;
      events := [];
      if terminated || |chunk| == 0 { return; }
      buffer := buffer + chunk;
      ghost var start := Abs();
      assert [] + Drain(w, start).1 == Drain(w, start).1;
      while true
        invariant !terminated
        invariant Drain(w, start) == (Drain(w, Abs()).0, events + Drain(w, Abs()).1)
        decreases |buffer|
      {
        ghost var before := Abs();
        var cut := NextFrame(buffer);
        match cut {
          case Incomplete =>
            assert events + [] == events;
            return;
          case BadLength(cause) =>
            terminated := true;
            events := events + [Fatal("", cause)];
            return;
          case Cut(frame, rest) =>
            buffer := rest;
            HandleKeepsBuffer(w, Abs(), frame);
            ghost var already := events;
            var event := HandleOne(frame);
            events := events + [event];
            if terminated { return; }
            assert already + ([event] + Drain(w, Abs()).1) == events + Drain(w, Abs()).1;
        }
      }
    }

    method HandleOne(frame: Str) returns (event: Event)
      modifies this
      ensures (Abs(), event) == HandleFrame(w, old(Abs()), frame)
    {
      hide KindNamed; hide ParseHello; hide ParseSummary; hide ParseRequest; hide TransferItems; hide ParseList;
      hide ParseReceipt; hide ParseRelayIngest; hide AckFault;
      var f := w.unmarshal(frame);
      if f.None? || f.value.kind == "" {
        terminated := true;
        return Fatal("", BadEnvelope);
      }
      var name, p := f.value.kind, f.value.payload;
      lastKind := name;
      match KindNamed(name) {
        case HELLO =>
          var h := ParseHello(w, p);
          if h.Some? {
            helloValidated := true;
            return HelloValidated(h.value);
          }
        case RELAY_INGEST =>
          var ids := ParseRelayIngest(p);
          if ids.Some? {
            if !trusted {
              untrusted := untrusted + 1;
              return UntrustedRelayIngest(ids.value);
            }
            return RelayIngest(ids.value);
          }
        case SUMMARY =>
          var m := ParseSummary(p);
          if m.Some? { return SummaryReceived(m.value); }
        case REQUEST =>
          var want := ParseRequest(p);
          if want.Some? { return RequestReceived(want.value); }
        case TRANSFER =>
          var items := TransferItems(p);
          if items.Some? {
            var parsed := ParseObjects(w, items.value);
            return TransferReceived(parsed);
          }
        case RECEIPT =>
          var ids := ParseReceipt(p);
          if ids.Some? {
            var expected := order;
            var fault := ValidateExpectedReceipt(ids.value);
            if fault.Some? {
              terminated := true;
              return Fatal(name, fault.value);
            }
            awaiting, order, index := false, [], map[];
            return ReceiptReceived(ids.value, expected);
          }
        case UnknownFrame =>
          terminated := true;
          return Fatal(name, UnknownKind);
      }
      terminated := true;
      return Fatal(name, BadPayload);
    }

    method IsHealthy() returns (ok: bool)
      ensures ok <==> Healthy(Abs())
    {
      return !terminated && helloValidated;
    }
  }
}
