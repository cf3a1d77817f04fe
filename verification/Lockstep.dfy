/** Two relays on one federation connection (internal/federation/peering.go): each drives its
    session adapter, answers what the other sends and keeps what it accepts. */
module Lockstep {
  import opened ByteStrings
  import opened GossipLimits
  import opened Ordered
  import opened Digest
  import opened Rfc3339
  import opened Envelopes
  import opened EnvelopeTables
  import opened EnvelopeStores
  import opened Bloom
  import opened Protocol
  import opened Transfer
  import opened Sessions
  import opened SessionRuns
  import opened RelayObject
  import DrainLoop
  import Want
  import Base64Url

  // ---- messages and their wire form

  datatype Message =
    | HelloMsg(hello: Hello)
    | SummaryMsg(summary: Summary)
    | RequestMsg(want: seq<Str>)
    | TransferMsg(items: seq<TransferObject>)
    | ReceiptMsg(received: seq<Str>)

  function FrameOf(m: Message): Frame
  {
    match m
    case HelloMsg(h) => Frame("HELLO", HelloPayload(h))
    case SummaryMsg(s) => DrainLoop.SummaryFrame(s)
    case RequestMsg(want) => DrainLoop.RequestFrame(want)
    case TransferMsg(items) => DrainLoop.TransferFrame(items)
    case ReceiptMsg(ids) => DrainLoop.ReceiptFrame(ids)
  }

  /** `sendEnvelope` refuses a frame whose encoding is too long. */
  predicate Fits(w: World, m: Message) { Prefixed(w.marshal(FrameOf(m))).Some? }

  function Bytes(w: World, m: Message): Str
    requires Fits(w, m)
  {
    Prefixed(w.marshal(FrameOf(m))).value
  }

  /** Every frame that can be sent is decoded back by the peer. */
  ghost predicate Faithful(w: World)
  {
    forall f: Frame | Prefixed(w.marshal(f)).Some? :: w.unmarshal(w.marshal(f)) == Some(f)
  }

  // ---- one endpoint

  datatype Peer = Peer(
    relayId: Str,
    session: State,
    tables: Tables,
    helloSent: bool,
    summarySent: bool,
    remote: Option<Hello>,
    requesting: bool,           // a REQUEST went out and its TRANSFER has not come in
    acknowledged: set<Str>,     // ids of every RECEIPT sent
    removed: set<Str>,          // ids removed since they were last acknowledged
    confirmed: set<Str>)        // ids of every RECEIPT received

  function Start(relayId: Str, tables: Tables): Peer
  {
    Peer(relayId, Fresh(true), tables, false, false, None, false, {}, {}, {})
  }

  /** What the ingest engine does with an object: takes it or not, and may write an envelope. */
  datatype Engine = Engine(takes: bool, wrote: Option<Envelope>)

  /** What the surroundings decide while a peer reacts. */
  datatype Choice = Choice(now: Time, summary: Summary, messages: set<Str>, engine: Str -> Engine)

  datatype Outcome = Goes(peer: Peer, sent: seq<Message>) | Breaks

  function NodeId(w: World, relayId: Str): Str { BuildRelayHello(w, relayId).nodeId }

  /** `sendSummary`: everything eligible, previewing the first 64. */
  ghost predicate OwnSummary(w: World, t: Tables, now: Time, s: Summary)
  {
    var items := Enumerate(Eligible(View(t), now));
    WellBuilt(w, s, items) && s.itemCount == |items| && s.preview == Take(items, MAX_PREVIEW)
  }

  /** `hasObjectID`, for lookups that do not fail. */
  ghost function KnownIn(t: Tables, messages: set<Str>): Str -> Want.Lookup
  {
    var view := View(t);
    id => if id in view || id in messages then Want.Known else Want.Unknown
  }

  ghost function WantFor(w: World, p: Peer, s: Summary, messages: set<Str>): seq<Str>
  {
    var known := KnownIn(p.tables, messages);
    var max := if p.remote.Some? then p.remote.value.maxWant else 0;
    Enumerate(Elements(Want.Chosen(s.preview, [], x => Want.Wanted(w.sha, s.bloom, known, x), Want.Limit(max))))
  }

  /** `buildTransferObjects`: the loadable, unexpired ones in request order, at most 32. */
  ghost function ObjectsFor(w: World, t: Tables, want: seq<Str>, now: Time): seq<TransferObject>
  {
    var view := View(t);
    var load := id => Load(w, view, id);
    var unexpired := id => load(id).Found? && load(id).item.expiryMs > now / MILLISECOND;
    DrainLoop.Items(load, Take(Filter(want, unexpired), MAX_TRANSFER))
  }

  /** The federation side also refuses a signed expiry not after the signed creation. */
  predicate Acceptable(w: World, o: TransferObject, now: Time)
  {
    && ToMessage(w, o, now).Some?
    && var item := w.parseItem(DecodeRaw(o.envelopeB64).value).value;
       !(0 < item.expiresAt <= item.createdAt)
  }

  /** A genuine object is acceptable iff it passes validation and is not signed to expire by the time
      it was created. */
  lemma AcceptableIff(w: World, o: TransferObject, now: Time)
    requires Genuine(w, o)
    ensures Acceptable(w, o, now) <==>
              Passes(o, now) && (o.envelope.expiresAt <= 0 || o.envelope.expiresAt > o.envelope.createdAt)
  {
    hide ToMessage; hide Passes; hide DecodeRaw; hide IsDigest; hide ItemIdOf;
    MessageIff(w, o, now);
  }

  /** The loop of `handleTransfer`: the tables and the acknowledged ids after the objects. */
  ghost function TakeIn(w: World, t: Tables, objects: seq<Indexed>, c: Choice, origin: Str): (Tables, seq<Str>)
    decreases |objects|
  {
    if objects == [] then (t, [])
    else
      var (t1, ids) := TakeIn(w, t, objects[..|objects| - 1], c, origin);
      var o := objects[|objects| - 1].item;
      var engine := c.engine(o.itemId);
      if !Acceptable(w, o, c.now) then (t1, ids)
      else
        var t2 := if engine.wrote.Some? && Storable(engine.wrote.value) then Persist(t1, engine.wrote.value, true).0
                  else t1;
        if !engine.takes then (t2, ids)
        else
          var kept := Keep(w, t2, o, c.now, origin);
          if kept.None? then (t2, ids) else (kept.value, ids + [o.itemId])
  }

  /** `processEvents` on one event. */
  ghost function React(w: World, p: Peer, e: Event, c: Choice): Outcome
  {
    match e
    case Fatal(_, _) => Breaks
    case HelloValidated(h) => ReactHello(w, p, h, c)
    case SummaryReceived(s) => if Healthy(p.session) then ReactSummary(w, p, s, c) else Breaks
    case RequestReceived(want) => if Healthy(p.session) then ReactRequest(w, p, want, c) else Breaks
    case TransferReceived(t) => if Healthy(p.session) then ReactTransfer(w, p, t.objects, c) else Breaks
    case ReceiptReceived(accepted, _) =>
      if Healthy(p.session) then Goes(p.(confirmed := p.confirmed + Elements(accepted)), []) else Breaks
    case _ => Goes(p, [])
  }

  /** An accepted connection answers HELLO with HELLO; then the summary goes out, once. */
  function ReactHello(w: World, p: Peer, h: Hello, c: Choice): Outcome
  {
    if p.remote.Some? && p.remote.value.nodeId != h.nodeId then Breaks
    else
      Goes(p.(remote := Some(h), helloSent := true, summarySent := true),
           (if p.helloSent then [] else [HelloMsg(BuildRelayHello(w, p.relayId))])
           + (if p.summarySent then [] else [SummaryMsg(c.summary)]))
  }

  ghost function ReactSummary(w: World, p: Peer, s: Summary, c: Choice): Outcome
  {
    var want := WantFor(w, p, s, c.messages);
    if want == [] then Goes(p, []) else Goes(p.(requesting := true), [RequestMsg(want)])
  }

  ghost function ReactRequest(w: World, p: Peer, want: seq<Str>, c: Choice): Outcome
  {
    if want == [] then Goes(p, [])
    else
      var items := ObjectsFor(w, p.tables, want, c.now);
      Goes(p.(session := SetExpected(p.session, DrainLoop.Ids(items))), [TransferMsg(items)])
  }

  ghost function ReactTransfer(w: World, p: Peer, objects: seq<Indexed>, c: Choice): Outcome
  {
    var (tables, ids) := TakeIn(w, p.tables, objects, c, if p.remote.Some? then p.remote.value.nodeId else []);
    Goes(p.(tables := tables, requesting := false,
            acknowledged := p.acknowledged + Elements(ids), removed := p.removed - Elements(ids)),
         [ReceiptMsg(SortIds(ids))])
  }

  ghost function ReactAll(w: World, p: Peer, events: seq<Event>, c: Choice): Outcome
    decreases |events|
  {
    if events == [] then Goes(p, [])
    else
      var first := React(w, p, events[0], c);
      if first.Breaks? then Breaks
      else
        var rest := ReactAll(w, first.peer, events[1..], c);
        if rest.Breaks? then Breaks else Goes(rest.peer, first.sent + rest.sent)
  }

  /** One inbound chunk: through the adapter, then through the handlers. */
  ghost function Receive(w: World, p: Peer, chunk: Str, c: Choice): Outcome
  {
    var (s, events) := Push(w, p.session, chunk);
    ReactAll(w, p.(session := s), events, c)
  }

  // ---- two endpoints

  datatype Net = Net(a: Peer, b: Peer, toA: seq<Message>, toB: seq<Message>)

  function Swap(n: Net): Net { Net(n.b, n.a, n.toB, n.toA) }

  datatype Action =
    | Dial
    | Deliver(choice: Choice)
    | Announce(summary: Summary, have: seq<Str>)
    | Write(envelope: Envelope)
    | Forget(id: Str)

  /** What endpoint `a` may do. A REQUEST waits until the one before it is answered, and only
      frames that fit are sent. */
  ghost predicate Acts(w: World, n: Net, act: Action, n': Net)
  {
    match act
    case Dial =>
      && !n.a.helloSent
      && n' == n.(a := n.a.(helloSent := true), toB := n.toB + [HelloMsg(BuildRelayHello(w, n.a.relayId))])
      && Fits(w, HelloMsg(BuildRelayHello(w, n.a.relayId)))
    case Deliver(c) =>
      && n.toA != [] && Fits(w, n.toA[0]) && OwnSummary(w, n.a.tables, c.now, c.summary)
      && var out := Receive(w, n.a, Bytes(w, n.toA[0]), c);
         && out.Goes?
         && n' == Net(out.peer, n.b, n.toA[1..], n.toB + out.sent)
         && (forall m | m in out.sent :: Fits(w, m))
         && (forall m | m in out.sent :: m.RequestMsg? ==> !n.a.requesting)
    case Announce(s, have) =>
      && n.a.remote.Some? && WellBuilt(w, s, have) && Fits(w, SummaryMsg(s))
      && n' == n.(toB := n.toB + [SummaryMsg(s)])
    case Write(e) =>
      && Storable(e) && ValidTime(e.expires)
      && n' == n.(a := n.a.(tables := Persist(n.a.tables, e, true).0))
    case Forget(id) =>
      n' == n.(a := n.a.(tables := Remove(n.a.tables, id, true), removed := n.a.removed + {id}))
  }

  datatype Turn = Turn(left: bool, act: Action)

  ghost predicate Steps(w: World, n: Net, turn: Turn, n': Net)
  {
    if turn.left then Acts(w, n, turn.act, n') else Acts(w, Swap(n), turn.act, Swap(n'))
  }

  ghost predicate IsRun(w: World, nets: seq<Net>, turns: seq<Turn>)
  {
    && |nets| == |turns| + 1
    && forall i | 0 <= i < |turns| :: Steps(w, nets[i], turns[i], nets[i + 1])
  }

  // ---- the invariant

  /** What an honest endpoint puts on the wire. */
  ghost predicate Good(w: World, m: Message, relayId: Str)
  {
    match m
    case HelloMsg(h) => h == BuildRelayHello(w, relayId)
    case SummaryMsg(s) => exists items :: WellBuilt(w, s, items)
    case RequestMsg(want) => want != [] && |want| <= MAX_WANT && SortedDigests(want)
    case TransferMsg(items) => |items| <= MAX_TRANSFER
    case ReceiptMsg(ids) => |ids| <= MAX_RECEIPT && Distinct(ids) && [] !in ids
  }

  function Asks(ms: seq<Message>): seq<Message> { Filter(ms, (m: Message) => m.RequestMsg? || m.ReceiptMsg?) }
  function Gives(ms: seq<Message>): seq<Message> { Filter(ms, (m: Message) => m.TransferMsg?) }

  /** A receipt on its way acknowledges ids its sender stored and its receiver expects. */
  ghost predicate FairReceipt(m: Message, sender: Peer, receiver: Peer)
  {
    m.ReceiptMsg? && forall x | x in m.received :: x in sender.acknowledged && x in receiver.session.order
  }

  /** The exchange in which `a` asks and `b` gives: idle, asked, given, acknowledged, or
      acknowledged and already asked again. */
  ghost predicate Exchange(a: Peer, b: Peer, asks: seq<Message>, gives: seq<Message>)
  {
    if gives != [] then
      && |gives| == 1 && asks == [] && a.requesting && b.session.awaiting
      && gives[0].TransferMsg? && b.session.order == ExpectedOrder(DrainLoop.Ids(gives[0].items))
    else
      && (b.session.awaiting <==> asks != [] && asks[0].ReceiptMsg?)
      && (a.requesting <==> asks != [] && asks[|asks| - 1].RequestMsg?)
      && |asks| == (if b.session.awaiting then 1 else 0) + (if a.requesting then 1 else 0)
      && (b.session.awaiting ==> FairReceipt(asks[0], a, b))
  }

  /** HELLO opens each direction. */
  ghost predicate HelloFirst(w: World, n: Net)
  {
    && (!n.b.helloSent ==> n.toA == [])
    && (n.b.helloSent && !n.a.session.helloValidated ==> n.toA != [] && n.toA[0].HelloMsg?)
    && (n.a.session.helloValidated <==> n.a.remote.Some?)
    && (n.a.session.helloValidated ==>
          n.a.helloSent && n.b.helloSent && n.a.remote.value.nodeId == NodeId(w, n.b.relayId))
  }

  ghost predicate GoodSession(s: State) { s.buffer == [] && !s.terminated && ReceiptInv(s) }

  ghost predicate GoodStore(p: Peer)
  {
    Agrees(p.tables) && p.acknowledged <= View(p.tables).Keys + p.removed
  }

  /** What holds of endpoint `a` and the messages to it. */
  ghost predicate Half(w: World, n: Net)
  {
    && GoodSession(n.a.session) && GoodStore(n.a)
    && (forall m | m in n.toA :: Good(w, m, n.b.relayId) && Fits(w, m))
    && HelloFirst(w, n)
    && Exchange(n.a, n.b, Asks(n.toB), Gives(n.toA))
    && n.a.confirmed <= n.b.acknowledged
  }

  ghost predicate Inv(w: World, n: Net) { Half(w, n) && Half(w, Swap(n)) }

  // ---- one frame through the adapter

  lemma PushOne(w: World, s: State, m: Message)
    requires Faithful(w) && Fits(w, m) && s.buffer == [] && !s.terminated
    ensures var (s1, e) := HandlePayload(w, s.(lastKind := FrameOf(m).kind), FrameOf(m).kind, FrameOf(m).payload);
            Push(w, s, Bytes(w, m)) == (s1, [e])
  {
    hide HandlePayload; hide NextFrame; hide Prefixed;
    var frame, bytes := w.marshal(FrameOf(m)), Bytes(w, m);
    PrefixedCuts(frame, []);
    assert bytes + [] == bytes && [] + bytes == bytes;
    NothingPrefixed(frame);
    assert s.(buffer := bytes).(buffer := []) == s;
    HandleKeepsBuffer(w, s, frame);
    var (s1, e) := HandleFrame(w, s, frame);
    assert w.unmarshal(frame) == Some(FrameOf(m)) && FrameOf(m).kind != "";
    if !s1.terminated {
      EmptyIsIncomplete();
      assert Drain(w, s1) == (s1, []);
      assert [e] + [] == [e];
    }
  }

  lemma NothingPrefixed(frame: Str)
    requires Prefixed(frame).Some?
    ensures Prefixed(frame).value != []
  {
  }

  lemma EmptyIsIncomplete()
    ensures NextFrame([]).Incomplete?
  {
  }

  lemma HelloArrives(w: World, s: State, h: Hello)
    requires Faithful(w) && Fits(w, HelloMsg(h)) && GoodSession(s)
    requires ParseHello(w, HelloPayload(h)) == Some(h)
    ensures Push(w, s, Bytes(w, HelloMsg(h))) == (s.(lastKind := "HELLO", helloValidated := true), [HelloValidated(h)])
  {
    hide ParseHello; hide Push; hide Fits; hide Bytes;
    PushOne(w, s, HelloMsg(h));
  }

  lemma SummaryArrives(w: World, s: State, m: Summary)
    requires Faithful(w) && Fits(w, SummaryMsg(m)) && GoodSession(s)
    requires ParseSummary(SummaryPayload(m)) == Some(m)
    ensures Push(w, s, Bytes(w, SummaryMsg(m))) == (s.(lastKind := "SUMMARY"), [SummaryReceived(m)])
  {
    hide ParseSummary; hide Push; hide Fits; hide Bytes;
    PushOne(w, s, SummaryMsg(m));
  }

  lemma RequestArrives(w: World, s: State, want: seq<Str>)
    requires Faithful(w) && Fits(w, RequestMsg(want)) && GoodSession(s)
    requires |want| <= MAX_WANT && SortedDigests(want)
    ensures Push(w, s, Bytes(w, RequestMsg(want))) == (s.(lastKind := "REQUEST"), [RequestReceived(want)])
  {
    hide ParseRequest; hide Push; hide Fits; hide Bytes;
    RequestParses(want);
    PushOne(w, s, RequestMsg(want));
  }

  function WireObjects(items: seq<TransferObject>): (vs: seq<Value>)
    ensures |vs| == |items|
  {
    seq(|items|, i requires 0 <= i < |items| => Dict(ObjectPayload(items[i])))
  }

  lemma TransferArrives(w: World, s: State, items: seq<TransferObject>)
    requires Faithful(w) && Fits(w, TransferMsg(items)) && GoodSession(s) && |items| <= MAX_TRANSFER
    ensures Push(w, s, Bytes(w, TransferMsg(items))) ==
            (s.(lastKind := "TRANSFER"), [TransferReceived(ParseList(w, WireObjects(items)))])
  {
    hide ParseList; hide Push; hide Fits; hide Bytes; hide ObjectPayload;
    assert TransferPayload(items) == map["objects" := Arr(WireObjects(items))];
    assert TransferItems(TransferPayload(items)) == Some(WireObjects(items));
    PushOne(w, s, TransferMsg(items));
  }

  lemma ReceiptArrives(w: World, s: State, ids: seq<Str>)
    requires Faithful(w) && Fits(w, ReceiptMsg(ids)) && GoodSession(s)
    requires |ids| <= MAX_RECEIPT && Distinct(ids) && [] !in ids
    requires s.awaiting && forall x | x in ids :: x in s.order
    ensures Push(w, s, Bytes(w, ReceiptMsg(ids))) ==
            (s.(lastKind := "RECEIPT", awaiting := false, order := [], index := map[]), [ReceiptReceived(ids, s.order)])
  {
    hide ParseReceipt; hide Push; hide Fits; hide Bytes; hide ReceiptFault;
    ReceiptParses(ids);
    PushOne(w, s, ReceiptMsg(ids));
    ReceiptCheckExact(s.(lastKind := "RECEIPT"), ids);
  }

  lemma OneEvent(w: World, p: Peer, e: Event, c: Choice)
    ensures ReactAll(w, p, [e], c) == React(w, p, e, c)
  {
    hide React;
    var first := React(w, p, e, c);
    if first.Goes? {
      assert [e][1..] == [];
      assert ReactAll(w, first.peer, [], c) == Goes(first.peer, []);
      assert first.sent + [] == first.sent;
    }
  }

  // ---- what is built is good

  lemma WantIsGood(w: World, p: Peer, s: Summary, messages: set<Str>)
    requires SortedDigests(s.preview)
    ensures var want := WantFor(w, p, s, messages); |want| <= MAX_WANT && SortedDigests(want)
  {
    hide Enumerate; hide IsDigest; hide Want.Chosen; hide Want.Wanted;
    var known := KnownIn(p.tables, messages);
    var max := if p.remote.Some? then p.remote.value.maxWant else 0;
    SortedDistinct(s.preview);
    Want.WantMeetsSpec(s.preview, [], x => Want.Wanted(w.sha, s.bloom, known, x), Want.Limit(max));
    var want := WantFor(w, p, s, messages);
    forall i | 0 <= i < |want| ensures IsDigest(want[i]) {
      assert want[i] in s.preview;
      var j :| 0 <= j < |s.preview| && s.preview[j] == want[i];
    }
  }

  lemma {:induction false} ItemsCount(load: Str -> DrainLoop.Loaded, ids: seq<Str>)
    ensures |DrainLoop.Items(load, ids)| <= |ids|
  {
    if ids != [] { ItemsCount(load, ids[..|ids| - 1]); }
  }

  lemma ObjectsFew(w: World, t: Tables, want: seq<Str>, now: Time)
    ensures |ObjectsFor(w, t, want, now)| <= MAX_TRANSFER
  {
    hide Load; hide DrainLoop.Items; hide Filter;
    var view := View(t);
    var load := id => Load(w, view, id);
    var unexpired := id => load(id).Found? && load(id).item.expiryMs > now / MILLISECOND;
    ItemsCount(load, Take(Filter(want, unexpired), MAX_TRANSFER));
  }

  /** The ids of parsed objects are among the ids sent, without repeats. */
  lemma ParsedIdsWereSent(w: World, items: seq<TransferObject>)
    ensures var objects := ParseList(w, WireObjects(items)).objects;
            && |objects| <= |items|
            && (forall k | 0 <= k < |objects| ::
                  IsDigest(objects[k].item.itemId) && objects[k].item.itemId in DrainLoop.Ids(items))
            && (forall j, k | 0 <= j < k < |objects| :: objects[j].item.itemId != objects[k].item.itemId)
  {
    hide ParseList; hide ParseObject; hide DecodeRaw; hide RejectionReason; hide BytesBefore; hide IsDigest;
    hide ObjectPayload;
    var vs := WireObjects(items);
    var r := ParseList(w, vs);
    TransferPartition(w, vs, r);
    forall k | 0 <= k < |r.objects|
      ensures IsDigest(r.objects[k].item.itemId) && r.objects[k].item.itemId in DrainLoop.Ids(items) {
      var i := r.objects[k].index;
      assert AcceptedAt(w, vs, i) && WellFormedAt(w, vs, i);
      assert vs[i] == Dict(ObjectPayload(items[i]));
      ObjectParses(w, ObjectPayload(items[i]), items[i]);
      SamePayload(r.objects[k].item, items[i]);
      assert DrainLoop.Ids(items)[i] == items[i].itemId;
    }
  }

  lemma SamePayload(o: TransferObject, p: TransferObject)
    requires ObjectPayload(o) == ObjectPayload(p)
    ensures o.itemId == p.itemId && o.envelopeB64 == p.envelopeB64
    ensures o.expiryMs == p.expiryMs && o.hopCount == p.hopCount
  {
    var m, n := ObjectPayload(o), ObjectPayload(p);
    assert m["item_id"] == n["item_id"] && m["envelope_b64"] == n["envelope_b64"];
    assert m["expiry_unix_ms"] == n["expiry_unix_ms"] && m["hop_count"] == n["hop_count"];
  }

  lemma PersistGrows(t: Tables, e: Envelope)
    requires Agrees(t) && Storable(e) && ValidTime(e.expires)
    ensures Agrees(Persist(t, e, true).0) && View(t).Keys <= View(Persist(t, e, true).0).Keys
  {
    hide Agrees; hide View; hide Persist; hide Storable; hide Valid;
    PersistKeepsAgreement(t, e, true);
  }

  lemma KeepGrows(w: World, t: Tables, o: TransferObject, now: Time, origin: Str)
    requires Agrees(t) && Keep(w, t, o, now, origin).Some?
    ensures var t' := Keep(w, t, o, now, origin).value;
            Agrees(t') && View(t').Keys == View(t).Keys + {o.itemId}
  {
    hide Agrees; hide View; hide Keep; hide ToMessage; hide StoredEnvelope; hide Storable;
    KeepHasMessage(w, t, o, now, origin);
    KeepWrites(w, t, o, now, origin);
  }

  /** Every acknowledged id is one of the objects', is stored, and is acknowledged once. */
  lemma {:induction false} TakeInKeeps(w: World, t: Tables, objects: seq<Indexed>, c: Choice, origin: Str)
    requires Agrees(t)
    requires forall j, k | 0 <= j < k < |objects| :: objects[j].item.itemId != objects[k].item.itemId
    ensures var (t', ids) := TakeIn(w, t, objects, c, origin);
            && Agrees(t') && View(t).Keys + Elements(ids) <= View(t').Keys
            && Distinct(ids) && |ids| <= |objects|
            && (forall x | x in ids :: exists k | 0 <= k < |objects| :: objects[k].item.itemId == x)
    decreases |objects|
  {
    hide Agrees; hide View; hide Keep; hide Acceptable; hide Persist; hide Storable;
    if objects != [] {
      var rest, o := objects[..|objects| - 1], objects[|objects| - 1].item;
      TakeInKeeps(w, t, rest, c, origin);
      var (t1, ids) := TakeIn(w, t, rest, c, origin);
      assert forall k | 0 <= k < |rest| :: objects[k] == rest[k];
      assert o.itemId !in ids;
      var engine := c.engine(o.itemId);
      var t2 := t1;
      if engine.wrote.Some? && Storable(engine.wrote.value) {
        StorableExpiry(engine.wrote.value);
        PersistGrows(t1, engine.wrote.value);
        t2 := Persist(t1, engine.wrote.value, true).0;
      }
      if Keep(w, t2, o, c.now, origin).Some? { KeepGrows(w, t2, o, c.now, origin); }
      assert Elements(ids + [o.itemId]) == Elements(ids) + {o.itemId};
      assert objects[|objects| - 1].item.itemId == o.itemId;
    }
  }

  // ---- every step keeps the invariant

  lemma ExchangeFrame(a: Peer, b: Peer, a': Peer, b': Peer, asks: seq<Message>, gives: seq<Message>)
    requires Exchange(a, b, asks, gives)
    requires a'.requesting == a.requesting && a.acknowledged <= a'.acknowledged
    requires b'.session.awaiting == b.session.awaiting && b'.session.order == b.session.order
    ensures Exchange(a', b', asks, gives)
  {
    hide ExpectedOrder;
  }

  /** The new state after endpoint `a` became `a'`, reading on to `toA'` and sending `sent`. */
  lemma Glue(w: World, n: Net, a': Peer, toA': seq<Message>, sent: seq<Message>)
    requires Inv(w, n) && a'.relayId == n.a.relayId
    requires GoodSession(a'.session) && GoodStore(a')
    requires forall m | m in toA' :: m in n.toA
    requires forall m | m in sent :: Good(w, m, n.a.relayId) && Fits(w, m)
    requires a'.confirmed <= n.b.acknowledged && n.a.acknowledged <= a'.acknowledged
    requires HelloFirst(w, Net(a', n.b, toA', n.toB + sent)) && HelloFirst(w, Swap(Net(a', n.b, toA', n.toB + sent)))
    requires Exchange(a', n.b, Asks(n.toB) + Asks(sent), Gives(toA'))
    requires Exchange(n.b, a', Asks(toA'), Gives(n.toB) + Gives(sent))
    ensures Inv(w, Net(a', n.b, toA', n.toB + sent))
  {
    hide GoodSession; hide GoodStore; hide Good; hide Fits; hide HelloFirst; hide Exchange; hide Filter;
    FilterAppend(n.toB, sent, (m: Message) => m.RequestMsg? || m.ReceiptMsg?);
    FilterAppend(n.toB, sent, (m: Message) => m.TransferMsg?);
  }

  lemma Popped(ms: seq<Message>)
    requires ms != []
    ensures Asks(ms) == (if ms[0].RequestMsg? || ms[0].ReceiptMsg? then [ms[0]] else []) + Asks(ms[1..])
    ensures Gives(ms) == (if ms[0].TransferMsg? then [ms[0]] else []) + Gives(ms[1..])
  {
  }

  lemma Single(m: Message)
    ensures Asks([m]) == if m.RequestMsg? || m.ReceiptMsg? then [m] else []
    ensures Gives([m]) == if m.TransferMsg? then [m] else []
  {
    assert [m][1..] == [];
    Popped([m]);
    QuietSends([]);
  }

  /** After an opened session reads a message, HELLO still opens both directions. */
  lemma HelloStaysFirst(w: World, n: Net, a': Peer, sent: seq<Message>)
    requires HelloFirst(w, n) && HelloFirst(w, Swap(n)) && n.toA != []
    requires a'.relayId == n.a.relayId && a'.helloSent && a'.session.helloValidated && a'.remote.Some?
    requires a'.remote.value.nodeId == NodeId(w, n.b.relayId)
    requires !n.a.helloSent ==> sent != [] && sent[0].HelloMsg?
    ensures var n' := Net(a', n.b, n.toA[1..], n.toB + sent); HelloFirst(w, n') && HelloFirst(w, Swap(n'))
  {
    hide NodeId;
  }

  ghost predicate LawfulSends(w: World, p: Peer, sent: seq<Message>)
  {
    && (forall m | m in sent :: Fits(w, m))
    && (forall m | m in sent :: m.RequestMsg? ==> !p.requesting)
  }

  /** The delivery of the next message does not break, and keeps the invariant. */
  ghost predicate DeliveryKeeps(w: World, n: Net, c: Choice)
    requires n.toA != [] && Fits(w, n.toA[0])
  {
    var out := Receive(w, n.a, Bytes(w, n.toA[0]), c);
    && out.Goes?
    && (LawfulSends(w, n.a, out.sent) ==> Inv(w, Net(out.peer, n.b, n.toA[1..], n.toB + out.sent)))
  }

  lemma SessionKept(s: State, kind: string, hello: bool)
    requires GoodSession(s)
    ensures GoodSession(s.(lastKind := kind, helloValidated := hello))
  {
  }

  /** A push that yields one event, and the reaction to it, decide the delivery. */
  lemma Proceed(w: World, n: Net, c: Choice, s1: State, e: Event, a': Peer, sent: seq<Message>)
    requires n.toA != [] && Fits(w, n.toA[0]) && Push(w, n.a.session, Bytes(w, n.toA[0])) == (s1, [e])
    requires React(w, n.a.(session := s1), e, c) == Goes(a', sent)
    requires LawfulSends(w, n.a, sent) ==> Inv(w, Net(a', n.b, n.toA[1..], n.toB + sent))
    ensures DeliveryKeeps(w, n, c)
  {
    hide Push; hide ReactAll; hide React; hide Fits; hide Bytes; hide Inv; hide LawfulSends;
    OneEvent(w, n.a.(session := s1), e, c);
  }

  /** A message that is part of no exchange is read, and nothing of an exchange is sent. */
  lemma AsideRead(w: World, n: Net, a': Peer, sent: seq<Message>)
    requires Inv(w, n) && n.toA != [] && (n.toA[0].HelloMsg? || n.toA[0].SummaryMsg?)
    requires forall m | m in sent :: (m.HelloMsg? || m.SummaryMsg?) && Good(w, m, n.a.relayId) && Fits(w, m)
    requires !n.a.helloSent ==> sent != [] && sent[0].HelloMsg?
    requires GoodSession(a'.session) && a'.helloSent && a'.session.helloValidated && a'.remote.Some?
    requires a'.session.awaiting == n.a.session.awaiting && a'.session.order == n.a.session.order
    requires a'.remote.value.nodeId == NodeId(w, n.b.relayId) && a'.relayId == n.a.relayId
    requires a'.tables == n.a.tables && a'.acknowledged == n.a.acknowledged && a'.removed == n.a.removed
    requires a'.requesting == n.a.requesting && a'.confirmed == n.a.confirmed
    ensures Inv(w, Net(a', n.b, n.toA[1..], n.toB + sent))
  {
    hide GoodSession; hide GoodStore; hide Fits; hide Good; hide Exchange; hide Filter; hide NodeId; hide HelloFirst;
    HelloStaysFirst(w, n, a', sent);
    StoreKept(n.a, a');
    QuietSends(sent);
    Popped(n.toA);
    assert Asks(n.toB) + [] == Asks(n.toB) && Gives(n.toB) + [] == Gives(n.toB);
    assert [] + Asks(n.toA[1..]) == Asks(n.toA[1..]) && [] + Gives(n.toA[1..]) == Gives(n.toA[1..]);
    ExchangeFrame(n.a, n.b, a', n.b, Asks(n.toB), Gives(n.toA));
    ExchangeFrame(n.b, n.a, n.b, a', Asks(n.toA), Gives(n.toB));
    Glue(w, n, a', n.toA[1..], sent);
  }

  lemma DeliverHello(w: World, n: Net, c: Choice)
    requires Inv(w, n) && Faithful(w) && n.toA != [] && n.toA[0].HelloMsg?
    requires OwnSummary(w, n.a.tables, c.now, c.summary)
    ensures DeliveryKeeps(w, n, c)
  {
    hide Push; hide ReactAll; hide GoodSession; hide GoodStore; hide Fits; hide Bytes; hide Exchange; hide Filter;
    hide BuildRelayHello;
    hide HelloPayload; hide ParseHello; hide WellBuilt; hide DeliveryKeeps; hide Enumerate;
    var h := n.toA[0].hello;
    assert n.toA[0] in n.toA;
    RelayHelloParses(w, n.b.relayId);
    HelloArrives(w, n.a.session, h);
    var s1 := n.a.session.(lastKind := "HELLO", helloValidated := true);
    SessionKept(n.a.session, "HELLO", true);
    var out := ReactHello(w, n.a.(session := s1), h, c);
    assert WellBuilt(w, c.summary, Enumerate(Eligible(View(n.a.tables), c.now)));
    if LawfulSends(w, n.a, out.sent) { AsideRead(w, n, out.peer, out.sent); }
    Proceed(w, n, c, s1, HelloValidated(h), out.peer, out.sent);
  }

  lemma StoreKept(p: Peer, p': Peer)
    requires GoodStore(p) && p'.tables == p.tables && p'.acknowledged == p.acknowledged && p'.removed == p.removed
    ensures GoodStore(p')
  {
  }

  lemma {:induction false} QuietSends(ms: seq<Message>)
    requires forall m | m in ms :: m.HelloMsg? || m.SummaryMsg?
    ensures Asks(ms) == [] && Gives(ms) == []
  {
    if ms != [] {
      QuietSends(ms[1..]);
      Popped(ms);
      assert ms[0] in ms;
    }
  }

  /** The session is open by the time anything but HELLO arrives. */
  lemma Opened(w: World, n: Net)
    requires HelloFirst(w, n) && n.toA != [] && !n.toA[0].HelloMsg?
    ensures n.a.session.helloValidated && n.a.helloSent
    ensures n.a.remote.Some? && n.a.remote.value.nodeId == NodeId(w, n.b.relayId)
  {
    hide NodeId;
  }

  lemma DeliverSummary(w: World, n: Net, c: Choice)
    requires Inv(w, n) && Faithful(w) && n.toA != [] && n.toA[0].SummaryMsg?
    ensures DeliveryKeeps(w, n, c)
  {
    hide Push; hide GoodSession; hide GoodStore; hide Fits; hide Bytes; hide Filter; hide HelloFirst; hide Exchange;
    hide WellBuilt;
    hide ParseSummary; hide SummaryPayload; hide WantFor; hide NodeId; hide DeliveryKeeps;
    var m := n.toA[0].summary;
    assert n.toA[0] in n.toA;
    var items :| WellBuilt(w, m, items);
    SummaryParses(w, m, items);
    SummaryArrives(w, n.a.session, m);
    Opened(w, n);
    var s1 := n.a.session.(lastKind := "SUMMARY");
    SessionKept(n.a.session, "SUMMARY", n.a.session.helloValidated);
    var p := n.a.(session := s1);
    HealthyOf(p);
    PreviewIsSorted(w, m, items);
    WantIsGood(w, p, m, c.messages);
    var want := WantFor(w, p, m, c.messages);
    if want == [] {
      AsideRead(w, n, p, []);
      Proceed(w, n, c, s1, SummaryReceived(m), p, []);
    } else {
      var a' := p.(requesting := true);
      if LawfulSends(w, n.a, [RequestMsg(want)]) { AskedFor(w, n, a', want); }
      Proceed(w, n, c, s1, SummaryReceived(m), a', [RequestMsg(want)]);
    }
  }

  lemma PreviewIsSorted(w: World, s: Summary, items: seq<Str>)
    requires WellBuilt(w, s, items)
    ensures SortedDigests(s.preview)
  {
  }

  /** Reading a summary and answering it with a request. */
  lemma AskedFor(w: World, n: Net, a': Peer, want: seq<Str>)
    requires Inv(w, n) && n.toA != [] && n.toA[0].SummaryMsg?
    requires want != [] && |want| <= MAX_WANT && SortedDigests(want) && LawfulSends(w, n.a, [RequestMsg(want)])
    requires GoodSession(a'.session)
    requires a'.session.awaiting == n.a.session.awaiting && a'.session.order == n.a.session.order
    requires a' == n.a.(session := a'.session, requesting := true) && a'.session.helloValidated
    ensures Inv(w, Net(a', n.b, n.toA[1..], n.toB + [RequestMsg(want)]))
  {
    hide GoodSession; hide GoodStore; hide Fits; hide Exchange; hide Filter; hide NodeId; hide HelloFirst;
    var sent := [RequestMsg(want)];
    assert RequestMsg(want) in sent;
    Opened(w, n);
    HelloStaysFirst(w, n, a', sent);
    StoreKept(n.a, a');
    Single(RequestMsg(want));
    Popped(n.toA);
    assert Gives(n.toB) + [] == Gives(n.toB);
    assert [] + Asks(n.toA[1..]) == Asks(n.toA[1..]) && [] + Gives(n.toA[1..]) == Gives(n.toA[1..]);
    AskAgain(n.a, n.b, a', Asks(n.toB), Gives(n.toA), want);
    ExchangeFrame(n.b, n.a, n.b, a', Asks(n.toA), Gives(n.toB));
    Glue(w, n, a', n.toA[1..], sent);
  }

  lemma HealthyOf(p: Peer)
    requires GoodSession(p.session) && p.session.helloValidated
    ensures Healthy(p.session)
  {
  }

  lemma AskAgain(a: Peer, b: Peer, a': Peer, asks: seq<Message>, gives: seq<Message>, want: seq<Str>)
    requires Exchange(a, b, asks, gives) && !a.requesting && a'.requesting && a'.acknowledged == a.acknowledged
    ensures Exchange(a', b, asks + [RequestMsg(want)], gives)
  {
    hide ExpectedOrder;
  }

  // requests

  lemma DeliverRequest(w: World, n: Net, c: Choice)
    requires Inv(w, n) && Faithful(w) && n.toA != [] && n.toA[0].RequestMsg?
    ensures DeliveryKeeps(w, n, c)
  {
    hide Push; hide GoodSession; hide GoodStore; hide Fits; hide Bytes; hide Filter; hide HelloFirst; hide Exchange;
    hide ObjectsFor;
    hide NodeId; hide DeliveryKeeps; hide SetExpected; hide IsDigest; hide Compare;
    var want := n.toA[0].want;
    assert n.toA[0] in n.toA;
    RequestArrives(w, n.a.session, want);
    Opened(w, n);
    var s1 := n.a.session.(lastKind := "REQUEST");
    SessionKept(n.a.session, "REQUEST", n.a.session.helloValidated);
    var p := n.a.(session := s1);
    HealthyOf(p);
    var items := ObjectsFor(w, p.tables, want, c.now);
    ObjectsFew(w, p.tables, want, c.now);
    var a' := p.(session := SetExpected(s1, DrainLoop.Ids(items)));
    if LawfulSends(w, n.a, [TransferMsg(items)]) { Gave(w, n, s1, a', items); }
    Proceed(w, n, c, s1, RequestReceived(want), a', [TransferMsg(items)]);
  }

  /** Answering a request with a transfer, and expecting a receipt for it. */
  lemma Gave(w: World, n: Net, s1: State, a': Peer, items: seq<TransferObject>)
    requires Inv(w, n) && n.toA != [] && n.toA[0].RequestMsg?
    requires |items| <= MAX_TRANSFER && LawfulSends(w, n.a, [TransferMsg(items)])
    requires GoodSession(s1) && s1.helloValidated
    requires a' == n.a.(session := SetExpected(s1, DrainLoop.Ids(items)))
    ensures Inv(w, Net(a', n.b, n.toA[1..], n.toB + [TransferMsg(items)]))
  {
    hide GoodSession; hide GoodStore; hide Fits; hide Exchange; hide Filter; hide NodeId; hide HelloFirst;
    hide ExpectedOrder; hide IndexOf;
    var sent := [TransferMsg(items)];
    assert TransferMsg(items) in sent;
    Opened(w, n);
    HelloStaysFirst(w, n, a', sent);
    StoreKept(n.a, a');
    ExpectingIsGood(s1, DrainLoop.Ids(items));
    Single(TransferMsg(items));
    Popped(n.toA);
    assert Asks(n.toB) + [] == Asks(n.toB);
    assert [] + Gives(n.toA[1..]) == Gives(n.toA[1..]);
    ExchangeFrame(n.a, n.b, a', n.b, Asks(n.toB), Gives(n.toA));
    Answer(n.b, n.a, a', Asks(n.toA), Gives(n.toB), TransferMsg(items));
    assert Asks(n.toA)[1..] == Asks(n.toA[1..]);
    Glue(w, n, a', n.toA[1..], sent);
  }

  lemma ExpectingIsGood(s: State, ids: seq<Str>)
    requires GoodSession(s)
    ensures GoodSession(SetExpected(s, ids))
  {
    hide ReceiptInv; hide ExpectedOrder; hide IndexOf;
    SetExpectedKeepsInv(s, ids);
  }

  lemma Answer(asker: Peer, giver: Peer, giver': Peer, asks: seq<Message>, gives: seq<Message>, m: Message)
    requires Exchange(asker, giver, asks, gives) && asks != [] && asks[0].RequestMsg? && m.TransferMsg?
    requires giver'.session.awaiting && giver'.session.order == ExpectedOrder(DrainLoop.Ids(m.items))
    ensures Exchange(asker, giver', asks[1..], gives + [m])
  {
    hide ExpectedOrder;
  }

  // transfers

  lemma DeliverTransfer(w: World, n: Net, c: Choice)
    requires Inv(w, n) && Faithful(w) && n.toA != [] && n.toA[0].TransferMsg?
    ensures DeliveryKeeps(w, n, c)
  {
    hide Push; hide GoodSession; hide GoodStore; hide Fits; hide Bytes; hide Filter; hide HelloFirst; hide Exchange;
    hide TakeIn;
    hide NodeId; hide DeliveryKeeps; hide ParseList; hide SortIds;
    var items := n.toA[0].items;
    assert n.toA[0] in n.toA;
    TransferArrives(w, n.a.session, items);
    Opened(w, n);
    var s1 := n.a.session.(lastKind := "TRANSFER");
    SessionKept(n.a.session, "TRANSFER", n.a.session.helloValidated);
    var p := n.a.(session := s1);
    HealthyOf(p);
    var parsed := ParseList(w, WireObjects(items));
    var (tables, ids) := TakeIn(w, p.tables, parsed.objects, c, p.remote.value.nodeId);
    var a' := p.(tables := tables, requesting := false,
                 acknowledged := p.acknowledged + Elements(ids), removed := p.removed - Elements(ids));
    var sent := [ReceiptMsg(SortIds(ids))];
    if LawfulSends(w, n.a, sent) {
      TookIn(w, n.a, items, c, p.remote.value.nodeId);
      StoreKept(n.a.(tables := tables, acknowledged := a'.acknowledged, removed := a'.removed), a');
      Acknowledged(w, n, a', items, ids);
    }
    Proceed(w, n, c, s1, TransferReceived(parsed), a', sent);
  }

  /** What one TRANSFER leaves behind: exact tables that hold every acknowledged id. */
  lemma TookIn(w: World, a: Peer, items: seq<TransferObject>, c: Choice, origin: Str)
    requires GoodStore(a) && |items| <= MAX_TRANSFER
    ensures var (tables, ids) := TakeIn(w, a.tables, ParseList(w, WireObjects(items)).objects, c, origin);
            && GoodStore(a.(tables := tables, acknowledged := a.acknowledged + Elements(ids),
                            removed := a.removed - Elements(ids)))
            && Elements(ids) <= View(tables).Keys
            && Distinct(ids) && |ids| <= MAX_TRANSFER
            && (forall x | x in ids :: x != [] && x in DrainLoop.Ids(items))
  {
    hide TakeIn; hide ParseList; hide View; hide Agrees; hide IsDigest;
    var objects := ParseList(w, WireObjects(items)).objects;
    ParsedIdsWereSent(w, items);
    TakeInKeeps(w, a.tables, objects, c, origin);
    EmptyIsNoDigest();
  }

  lemma SortingKeepsIds(ids: seq<Str>)
    requires Distinct(ids)
    ensures Distinct(SortIds(ids)) && |SortIds(ids)| == |ids| && forall x :: x in SortIds(ids) <==> x in ids
  {
    hide SortIds; hide Enumerate; hide Sorted; hide Distinct;
    SortIdsCorrect(ids);
    SortedDistinct(SortIds(ids));
    forall x ensures x in SortIds(ids) <==> x in ids { assert x in Elements(SortIds(ids)) <==> x in Elements(ids); }
  }

  lemma ReceiptIsGood(w: World, p: Peer, ids: seq<Str>)
    requires Distinct(ids) && [] !in ids && |ids| <= MAX_RECEIPT && LawfulSends(w, p, [ReceiptMsg(SortIds(ids))])
    ensures var m := ReceiptMsg(SortIds(ids));
            && Good(w, m, p.relayId) && Fits(w, m)
            && forall x :: x in m.received <==> x in ids
    ensures forall x | x in ids :: x in Elements(ids)
  {
    hide SortIds; hide Fits; hide Distinct;
    var m := ReceiptMsg(SortIds(ids));
    assert m in [m];
    SortingKeepsIds(ids);
  }

  /** Answering a transfer with a receipt. */
  lemma Acknowledged(w: World, n: Net, a': Peer, items: seq<TransferObject>, ids: seq<Str>)
    requires Inv(w, n) && n.toA != [] && n.toA[0] == TransferMsg(items)
    requires Distinct(ids) && |ids| <= MAX_TRANSFER && (forall x | x in ids :: x != [] && x in DrainLoop.Ids(items))
    requires GoodSession(a'.session) && a'.session.helloValidated && GoodStore(a')
    requires LawfulSends(w, n.a, [ReceiptMsg(SortIds(ids))])
    requires a'.session.awaiting == n.a.session.awaiting && a'.session.order == n.a.session.order
    requires a' == n.a.(session := a'.session, tables := a'.tables, requesting := false, removed := a'.removed,
                        acknowledged := n.a.acknowledged + Elements(ids))
    ensures Inv(w, Net(a', n.b, n.toA[1..], n.toB + [ReceiptMsg(SortIds(ids))]))
  {
    hide GoodSession; hide GoodStore; hide Fits; hide Exchange; hide Filter; hide NodeId; hide HelloFirst;
    hide SortIds; hide DrainLoop.Ids; hide Distinct; hide Asks; hide Gives; hide Elements; hide Good;
    hide LawfulSends;
    var m := ReceiptMsg(SortIds(ids));
    ReceiptIsGood(w, n.a, ids);
    Opened(w, n);
    HelloStaysFirst(w, n, a', [m]);
    Single(m);
    Popped(n.toA);
    assert Gives(n.toB) + [] == Gives(n.toB);
    assert [] + Asks(n.toA[1..]) == Asks(n.toA[1..]);
    ExchangeFrame(n.b, n.a, n.b, a', Asks(n.toA), Gives(n.toB));
    Confirm(n.a, n.b, a', Asks(n.toB), Gives(n.toA), m, items);
    assert Gives(n.toA)[1..] == Gives(n.toA[1..]);
    Glue(w, n, a', n.toA[1..], [m]);
  }

  lemma Confirm(
    asker: Peer, giver: Peer, asker': Peer, asks: seq<Message>, gives: seq<Message>, m: Message,
    items: seq<TransferObject>)
    requires Exchange(asker, giver, asks, gives) && gives != [] && gives[0] == TransferMsg(items) && m.ReceiptMsg?
    requires !asker'.requesting
    requires forall x | x in m.received :: x != [] && x in DrainLoop.Ids(items) && x in asker'.acknowledged
    ensures Exchange(asker', giver, asks + [m], gives[1..])
  {
    hide ExpectedOrder; hide DrainLoop.Ids;
    ExpectedOrderIsSet(DrainLoop.Ids(items));
    forall x | x in m.received ensures x in giver.session.order {
      assert x in Elements(DrainLoop.Ids(items));
      assert x in Elements(giver.session.order);
    }
  }

  // receipts

  lemma DeliverReceipt(w: World, n: Net, c: Choice)
    requires Inv(w, n) && Faithful(w) && n.toA != [] && n.toA[0].ReceiptMsg?
    ensures DeliveryKeeps(w, n, c)
  {
    hide Push; hide GoodSession; hide GoodStore; hide Fits; hide Bytes; hide Filter; hide HelloFirst; hide Exchange;
    hide NodeId; hide DeliveryKeeps;
    var m := n.toA[0];
    var ids := m.received;
    assert m in n.toA;
    Popped(n.toA);
    assert Asks(n.toA)[0] == m;
    Settle(n.b, n.a, Asks(n.toA), Gives(n.toB), n.a);
    ReceiptArrives(w, n.a.session, ids);
    Opened(w, n);
    var s1 := n.a.session.(lastKind := "RECEIPT", awaiting := false, order := [], index := map[]);
    SettledIsGood(n.a.session, s1);
    var p := n.a.(session := s1);
    HealthyOf(p);
    var a' := p.(confirmed := p.confirmed + Elements(ids));
    ReceiptSettles(w, n, a');
    Proceed(w, n, c, s1, ReceiptReceived(ids, n.a.session.order), a', []);
  }

  lemma SettledIsGood(s: State, s1: State)
    requires GoodSession(s) && s1 == s.(lastKind := "RECEIPT", awaiting := false, order := [], index := map[])
    ensures GoodSession(s1)
  {
  }

  lemma Settle(asker: Peer, giver: Peer, asks: seq<Message>, gives: seq<Message>, giver': Peer)
    requires Exchange(asker, giver, asks, gives) && asks != [] && asks[0].ReceiptMsg?
    ensures giver.session.awaiting && FairReceipt(asks[0], asker, giver)
    ensures !giver'.session.awaiting ==> Exchange(asker, giver', asks[1..], gives)
  {
    hide ExpectedOrder;
  }

  /** Reading a receipt settles the exchange. */
  lemma ReceiptSettles(w: World, n: Net, a': Peer)
    requires Inv(w, n) && n.toA != [] && n.toA[0].ReceiptMsg?
    requires GoodSession(a'.session) && !a'.session.awaiting && a'.session.helloValidated
    requires a' == n.a.(session := a'.session, confirmed := n.a.confirmed + Elements(n.toA[0].received))
    ensures Inv(w, Net(a', n.b, n.toA[1..], n.toB + []))
  {
    hide GoodSession; hide GoodStore; hide Fits; hide Exchange; hide Filter; hide NodeId; hide HelloFirst;
    Opened(w, n);
    HelloStaysFirst(w, n, a', []);
    StoreKept(n.a, a');
    QuietSends([]);
    Popped(n.toA);
    assert Asks(n.toB) + [] == Asks(n.toB) && Gives(n.toB) + [] == Gives(n.toB);
    assert [] + Gives(n.toA[1..]) == Gives(n.toA[1..]);
    assert Asks(n.toA)[1..] == Asks(n.toA[1..]);
    ExchangeFrame(n.a, n.b, a', n.b, Asks(n.toB), Gives(n.toA));
    Settle(n.b, n.a, Asks(n.toA), Gives(n.toB), a');
    assert forall x | x in n.toA[0].received :: x in n.b.acknowledged;
    Glue(w, n, a', n.toA[1..], []);
  }

  // ---- whole runs

  /** Whatever message is next, it is read without a fault and the invariant is kept. */
  lemma DeliverAny(w: World, n: Net, c: Choice)
    requires Inv(w, n) && Faithful(w) && n.toA != [] && OwnSummary(w, n.a.tables, c.now, c.summary)
    ensures Fits(w, n.toA[0]) && DeliveryKeeps(w, n, c)
  {
    hide DeliveryKeeps; hide OwnSummary; hide GoodSession; hide GoodStore; hide Good; hide Fits; hide HelloFirst;
    hide Exchange; hide Filter;
    assert n.toA[0] in n.toA;
    match n.toA[0] {
      case HelloMsg(_) => DeliverHello(w, n, c);
      case SummaryMsg(_) => DeliverSummary(w, n, c);
      case RequestMsg(_) => DeliverRequest(w, n, c);
      case TransferMsg(_) => DeliverTransfer(w, n, c);
      case ReceiptMsg(_) => DeliverReceipt(w, n, c);
    }
  }

  /** Sending HELLO or SUMMARY unprompted. */
  lemma SpeakKeeps(w: World, n: Net, a': Peer, m: Message)
    requires Inv(w, n) && Good(w, m, n.a.relayId) && Fits(w, m)
    requires a' == n.a.(helloSent := true)
    requires if n.a.helloSent then m.SummaryMsg? else m.HelloMsg?
    ensures Inv(w, Net(a', n.b, n.toA, n.toB + [m]))
  {
    hide GoodSession; hide GoodStore; hide Good; hide Fits; hide Exchange; hide Filter; hide NodeId;
    StoreKept(n.a, a');
    QuietSends([m]);
    assert Asks(n.toB) + [] == Asks(n.toB) && Gives(n.toB) + [] == Gives(n.toB);
    ExchangeFrame(n.a, n.b, a', n.b, Asks(n.toB), Gives(n.toA));
    ExchangeFrame(n.b, n.a, n.b, a', Asks(n.toA), Gives(n.toB));
    Glue(w, n, a', n.toA, [m]);
  }

  /** Changes to the store that keep it exact and lose nothing silently. */
  lemma StoreChangeKeeps(w: World, n: Net, a': Peer)
    requires Inv(w, n) && GoodStore(a') && a' == n.a.(tables := a'.tables, removed := a'.removed)
    ensures Inv(w, n.(a := a'))
  {
    hide GoodSession; hide GoodStore; hide Good; hide Fits; hide Exchange; hide Filter; hide NodeId;
    QuietSends([]);
    assert n.toB + [] == n.toB && Asks(n.toB) + [] == Asks(n.toB) && Gives(n.toB) + [] == Gives(n.toB);
    ExchangeFrame(n.a, n.b, a', n.b, Asks(n.toB), Gives(n.toA));
    ExchangeFrame(n.b, n.a, n.b, a', Asks(n.toA), Gives(n.toB));
    Glue(w, n, a', n.toA, []);
  }

  lemma WriteKeepsStore(p: Peer, e: Envelope)
    requires GoodStore(p) && Storable(e) && ValidTime(e.expires)
    ensures GoodStore(p.(tables := Persist(p.tables, e, true).0))
  {
    hide Agrees; hide View; hide Persist; hide Storable;
    PersistGrows(p.tables, e);
  }

  lemma ForgetKeepsStore(p: Peer, id: Str)
    requires GoodStore(p)
    ensures GoodStore(p.(tables := Remove(p.tables, id, true), removed := p.removed + {id}))
  {
    hide Agrees; hide View; hide Remove;
    RemoveKeepsAgreement(p.tables, id, true);
  }

  lemma ActKeepsInv(w: World, n: Net, act: Action, n': Net)
    requires Inv(w, n) && Faithful(w) && Acts(w, n, act, n')
    ensures Inv(w, n')
  {
    hide GoodSession; hide GoodStore; hide Fits; hide Exchange; hide Filter; hide NodeId; hide OwnSummary; hide Receive;
    hide Persist; hide Remove; hide Storable; hide WellBuilt; hide BuildRelayHello;
    match act {
      case Dial => SpeakKeeps(w, n, n'.a, HelloMsg(BuildRelayHello(w, n.a.relayId)));
      case Deliver(c) => DeliverAny(w, n, c);
      case Announce(s, have) => SpeakKeeps(w, n, n.a, SummaryMsg(s));
      case Write(e) =>
        WriteKeepsStore(n.a, e);
        StoreChangeKeeps(w, n, n'.a);
      case Forget(id) =>
        ForgetKeepsStore(n.a, id);
        StoreChangeKeeps(w, n, n'.a);
    }
  }

  function Opening(idA: Str, tablesA: Tables, idB: Str, tablesB: Tables): Net
  {
    Net(Start(idA, tablesA), Start(idB, tablesB), [], [])
  }

  lemma OpeningInv(w: World, idA: Str, tablesA: Tables, idB: Str, tablesB: Tables)
    requires Agrees(tablesA) && Agrees(tablesB)
    ensures Inv(w, Opening(idA, tablesA, idB, tablesB))
  {
    hide Agrees; hide View; hide BuildRelayHello;
    QuietSends([]);
  }

  lemma {:induction false} RunKeepsInv(w: World, nets: seq<Net>, turns: seq<Turn>, i: nat)
    requires Faithful(w) && IsRun(w, nets, turns) && Inv(w, nets[0]) && i < |nets|
    ensures Inv(w, nets[i])
  {
    hide Half; hide Acts; hide Faithful;
    if i > 0 {
      RunKeepsInv(w, nets, turns, i - 1);
      var n, turn := nets[i - 1], turns[i - 1];
      assert Steps(w, n, turn, nets[i]);
      assert Swap(Swap(n)) == n && Swap(Swap(nets[i])) == nets[i];
      if turn.left { ActKeepsInv(w, n, turn.act, nets[i]); }
      else { ActKeepsInv(w, Swap(n), turn.act, Swap(nets[i])); }
    }
  }

  /** What endpoint `a` can rely on: its session is alive, it knows every id it acknowledged
      unless that was removed since, what it holds for confirmed the peer has acknowledged, and
      whatever arrives next is handled without a fault. */
  ghost predicate Reliable(w: World, n: Net)
  {
    && !n.a.session.terminated
    && n.a.acknowledged <= View(n.a.tables).Keys + n.a.removed
    && n.a.confirmed <= n.b.acknowledged
    && (n.toA != [] ==>
          && Fits(w, n.toA[0])
          && forall c: Choice | OwnSummary(w, n.a.tables, c.now, c.summary) ::
               Receive(w, n.a, Bytes(w, n.toA[0]), c).Goes?)
  }

  lemma InvIsReliable(w: World, n: Net)
    requires Inv(w, n) && Faithful(w)
    ensures Reliable(w, n)
  {
    hide OwnSummary; hide Receive; hide Fits; hide Bytes; hide Agrees; hide View; hide Exchange; hide Filter;
    hide HelloFirst; hide Good;
    if n.toA != [] {
      assert n.toA[0] in n.toA;
      forall c: Choice | OwnSummary(w, n.a.tables, c.now, c.summary)
        ensures Receive(w, n.a, Bytes(w, n.toA[0]), c).Goes? {
        DeliverAny(w, n, c);
      }
    }
  }

  /** In every state of every run of two honest endpoints, both are reliable: no encounter goes
      fatal, and receipts are truthful. */
  lemma EncountersNeverGoFatal(
    w: World, idA: Str, tablesA: Tables, idB: Str, tablesB: Tables, nets: seq<Net>, turns: seq<Turn>, i: nat)
    requires Faithful(w) && Agrees(tablesA) && Agrees(tablesB)
    requires IsRun(w, nets, turns) && nets[0] == Opening(idA, tablesA, idB, tablesB) && i < |nets|
    ensures Reliable(w, nets[i]) && Reliable(w, Swap(nets[i]))
  {
    hide Agrees; hide Half; hide Acts; hide Faithful; hide Reliable;
    OpeningInv(w, idA, tablesA, idB, tablesB);
    RunKeepsInv(w, nets, turns, i);
    assert Swap(Swap(nets[i])) == nets[i];
    InvIsReliable(w, nets[i]);
    InvIsReliable(w, Swap(nets[i]));
  }

  /** Why a request must wait: after two transfers in a row, the receipt for the first passes
      exactly when all it acknowledges was sent again in the second. */
  lemma OverlappingTransfers(s: State, first: seq<Str>, second: seq<Str>, accepted: seq<Str>)
    requires Distinct(accepted) && [] !in accepted && forall x | x in accepted :: x in first
    ensures ReceiptFault(SetExpected(s, first), accepted).None?
    ensures ReceiptFault(SetExpected(SetExpected(s, first), second), accepted).None? <==>
              forall x | x in accepted :: x in second
  {
    hide ReceiptInv; hide ReceiptFault; hide ExpectedOrder; hide IndexOf;
    var s1 := SetExpected(s, first);
    SetExpectedKeepsInv(s, first);
    SetExpectedKeepsInv(s1, second);
    ReceiptCheckExact(s1, accepted);
    ReceiptCheckExact(SetExpected(s1, second), accepted);
    ExpectedMember(first);
    ExpectedMember(second);
  }

  lemma ExpectedMember(ids: seq<Str>)
    ensures forall x | x != [] :: x in ExpectedOrder(ids) <==> x in ids
  {
    hide ExpectedOrder;
    ExpectedOrderIsSet(ids);
    forall x | x != [] ensures x in ExpectedOrder(ids) <==> x in ids {
      assert x in Elements(ExpectedOrder(ids)) <==> x in Elements(ids);
    }
  }

  // ---- honest transfers are taken whole

  function EnvelopeBytes(items: seq<TransferObject>, n: nat): nat
    requires n <= |items|
  {
    if n == 0 then 0
    else
      var b := DecodeRaw(items[n - 1].envelopeB64);
      EnvelopeBytes(items, n - 1) + if b.Some? then |b.value| else 0
  }

  lemma {:induction false} WireSizes(w: World, items: seq<TransferObject>, n: nat)
    requires n <= |items| && forall i | 0 <= i < |items| :: Genuine(w, items[i])
    ensures BytesBefore(w, WireObjects(items), n) == EnvelopeBytes(items, n)
  {
    hide DecodeRaw; hide Genuine; hide ParseObject; hide ObjectPayload;
    if n > 0 {
      WireSizes(w, items, n - 1);
      var o := items[n - 1];
      ObjectParses(w, ObjectPayload(o), o);
      assert ObjectAt(w, WireObjects(items)[n - 1]) == Parsed(o);
    }
  }

  /** Of distinct genuine objects the peer takes exactly those up to which the envelope bytes
      keep to the budget; the others are refused for their size. */
  lemma GenuineTransferRule(w: World, items: seq<TransferObject>, i: nat)
    requires i < |items| && forall k | 0 <= k < |items| :: Genuine(w, items[k])
    requires Distinct(DrainLoop.Ids(items))
    ensures AcceptedAt(w, WireObjects(items), i) <==> EnvelopeBytes(items, i + 1) <= MAX_TRANSFER_BYTES
    ensures !AcceptedAt(w, WireObjects(items), i) ==> RejectionReason(w, WireObjects(items), i) == PolicyReject
    ensures ObjectAt(w, WireObjects(items)[i]) == Parsed(items[i])
  {
    hide Genuine; hide ObjectAt; hide BytesBefore; hide EnvelopeBytes; hide WireObjects; hide IdAt;
    hide Distinct; hide DrainLoop.Ids;
    var vs := WireObjects(items);
    WireObjectParses(w, items, i);
    WireSizes(w, items, i + 1);
    forall j: nat | j <= i ensures WellFormedAt(w, vs, j) && IdAt(w, vs, j) == items[j].itemId { WireIds(w, items, j); }
    forall j: nat | j < i ensures IdAt(w, vs, j) != IdAt(w, vs, i) { DifferentIds(items, j, i); }
  }

  /** So within the budget the peer sees exactly the objects sent, in order. */
  lemma GenuineTransferIsTakenWhole(w: World, items: seq<TransferObject>)
    requires forall i | 0 <= i < |items| :: Genuine(w, items[i])
    requires Distinct(DrainLoop.Ids(items)) && EnvelopeBytes(items, |items|) <= MAX_TRANSFER_BYTES
    ensures var r := ParseList(w, WireObjects(items));
            && r.rejected == [] && |r.objects| == |items|
            && forall i | 0 <= i < |items| :: r.objects[i] == Indexed(i, items[i])
  {
    hide DecodeRaw; hide Genuine; hide ParseObject; hide ObjectPayload; hide ParseList; hide BytesBefore;
    hide RejectionReason;
    hide EnvelopeBytes; hide AcceptedAt;
    var vs := WireObjects(items);
    var r := ParseList(w, vs);
    TransferPartition(w, vs, r);
    forall i: nat | i < |vs| ensures AcceptedAt(w, vs, i) && ObjectAt(w, vs[i]) == Parsed(items[i]) {
      BytesAddUp(items, i + 1, |items|);
      GenuineTransferRule(w, items, i);
    }
    NoneRejected(w, vs, r);
    InOrder(r.objects, |vs|);
  }

  lemma {:induction false} BytesAddUp(items: seq<TransferObject>, m: nat, n: nat)
    requires m <= n <= |items|
    ensures EnvelopeBytes(items, m) <= EnvelopeBytes(items, n)
  {
    hide DecodeRaw;
    if m < n { BytesAddUp(items, m, n - 1); }
  }

  /** What `buildTransferObjects` sends from a store filled by accepting objects is genuine and
      without repeats, so the rule above covers it. */
  lemma HonestTransfersAreGenuine(w: World, t: Tables, want: seq<Str>, now: Time)
    requires HoldsGenuine(w, View(t)) && Distinct(want)
    ensures var items := ObjectsFor(w, t, want, now);
            (forall i | 0 <= i < |items| :: Genuine(w, items[i])) && Distinct(DrainLoop.Ids(items))
  {
    hide Load; hide Genuine; hide HoldsGenuine; hide View; hide Filter; hide DrainLoop.Items;
    var view := View(t);
    var load := id => Load(w, view, id);
    var p := id => load(id).Found? && load(id).item.expiryMs > now / MILLISECOND;
    var chosen := Take(Filter(want, p), MAX_TRANSFER);
    FilterMember(want, p);
    FilterDistinct(want, p);
    forall id | id in chosen ensures load(id).Found? && load(id).item.itemId == id && Genuine(w, load(id).item) {
      var i :| 0 <= i < |chosen| && chosen[i] == id;
      assert Filter(want, p)[i] == id;
      assert id in Filter(want, p) && p(id);
      LoadedIsGenuine(w, view, id);
    }
    DrainLoop.IdsOfItems(load, chosen);
    AllLoaded(w, load, chosen);
  }

  lemma {:induction false} AllLoaded(w: World, load: Str -> DrainLoop.Loaded, ids: seq<Str>)
    requires forall id | id in ids :: load(id).Found? && Genuine(w, load(id).item)
    ensures forall i | 0 <= i < |DrainLoop.Items(load, ids)| :: Genuine(w, DrainLoop.Items(load, ids)[i])
  {
    hide Genuine;
    if ids != [] {
      var rest, id := ids[..|ids| - 1], ids[|ids| - 1];
      assert ids == rest + [id];
      assert id in ids;
      AllLoaded(w, load, rest);
    }
  }

  lemma NoneRejected(w: World, vs: seq<Value>, r: ParsedTransfer)
    requires IndicesAre(r.objects, r.rejected, w, vs, |vs|)
    ensures r.rejected != [] ==> exists i: nat | i < |vs| :: !AcceptedAt(w, vs, i)
  {
    hide AcceptedAt; hide RejectionReason; hide ObjectAt;
    if r.rejected != [] { assert !AcceptedAt(w, vs, r.rejected[0].index); }
  }

  lemma WireObjectParses(w: World, items: seq<TransferObject>, k: nat)
    requires k < |items| && Genuine(w, items[k])
    ensures ObjectAt(w, WireObjects(items)[k]) == Parsed(items[k])
  {
    hide DecodeRaw; hide Genuine; hide ParseObject; hide ObjectPayload;
    ObjectParses(w, ObjectPayload(items[k]), items[k]);
  }

  lemma WireIds(w: World, items: seq<TransferObject>, k: nat)
    requires k < |items| && Genuine(w, items[k])
    ensures WellFormedAt(w, WireObjects(items), k) && IdAt(w, WireObjects(items), k) == items[k].itemId
  {
    hide Genuine; hide ObjectAt; hide WireObjects;
    WireObjectParses(w, items, k);
  }

  lemma DifferentIds(items: seq<TransferObject>, j: nat, i: nat)
    requires Distinct(DrainLoop.Ids(items)) && j < i < |items|
    ensures items[j].itemId != items[i].itemId
  {
    assert DrainLoop.Ids(items)[j] != DrainLoop.Ids(items)[i];
  }

  /** Ascending indices below their own count are 0, 1, 2, ... */
  lemma {:induction false} InOrder(objects: seq<Indexed>, n: nat)
    requires |objects| == n && forall a, b | 0 <= a < b < |objects| :: objects[a].index < objects[b].index
    requires forall a | 0 <= a < |objects| :: objects[a].index < n
    ensures forall a | 0 <= a < |objects| :: objects[a].index == a
  {
    if n > 0 {
      assert objects[n - 1].index < n;
      InOrder(objects[..n - 1], n - 1) by {
        Ascending(objects, n - 1);
      }
      Ascending(objects, n - 1);
    }
  }

  lemma {:induction false} Ascending(objects: seq<Indexed>, k: nat)
    requires k < |objects| && forall a, b | 0 <= a < b < |objects| :: objects[a].index < objects[b].index
    ensures forall a | 0 <= a <= k :: a <= objects[a].index <= objects[k].index - (k - a)
  {
    if k > 0 { Ascending(objects, k - 1); assert objects[k - 1].index < objects[k].index; }
  }

  // ---- one exchange delivers

  /** How many of the first `n` objects keep to the byte budget. */
  function FitCount(items: seq<TransferObject>, n: nat): (k: nat)
    requires n <= |items|
    ensures k <= n
  {
    if n == 0 then 0 else if EnvelopeBytes(items, n) <= MAX_TRANSFER_BYTES then n else FitCount(items, n - 1)
  }

  lemma {:induction false} FitMeans(items: seq<TransferObject>, n: nat, i: nat)
    requires i < n <= |items|
    ensures i < FitCount(items, n) <==> EnvelopeBytes(items, i + 1) <= MAX_TRANSFER_BYTES
    decreases n
  {
    hide EnvelopeBytes;
    BytesAddUp(items, i + 1, n);
    if EnvelopeBytes(items, n) > MAX_TRANSFER_BYTES && i < n - 1 { FitMeans(items, n - 1, i); }
  }

  lemma {:induction false} FitStops(items: seq<TransferObject>, n: nat)
    requires 0 < n <= |items| && EnvelopeBytes(items, n) <= MAX_TRANSFER_BYTES
    ensures FitCount(items, n - 1) == n - 1
  {
    hide EnvelopeBytes;
    BytesAddUp(items, n - 1, n);
  }

  /** The peer parses exactly the objects within the budget, in order. */
  lemma {:induction false} ParsedPrefix(w: World, items: seq<TransferObject>, n: nat)
    requires n <= |items| && (forall k | 0 <= k < |items| :: Genuine(w, items[k])) && Distinct(DrainLoop.Ids(items))
    ensures var objects := Objects(w, WireObjects(items), n);
            |objects| == FitCount(items, n) && forall i | 0 <= i < |objects| :: objects[i] == Indexed(i, items[i])
    decreases n
  {
    hide Genuine; hide EnvelopeBytes; hide AcceptedAt; hide RejectionReason; hide ObjectAt; hide WireObjects;
    hide Distinct;
    if n > 0 {
      ParsedPrefix(w, items, n - 1);
      GenuineTransferRule(w, items, n - 1);
      if EnvelopeBytes(items, n) <= MAX_TRANSFER_BYTES { FitStops(items, n); }
    }
  }

  lemma KeepAnywhere(w: World, t: Tables, t': Tables, o: TransferObject, now: Time, origin: Str)
    ensures Keep(w, t, o, now, origin).Some? <==> Keep(w, t', o, now, origin).Some?
  {
    hide ToMessage; hide StoredEnvelope; hide Storable; hide Decode; hide Valid; hide PutsAccepted;
  }

  /** The asker's engine takes the object, writing at most that item's envelope, and its store can
      hold it. */
  ghost predicate Welcome(w: World, o: TransferObject, c: Choice, origin: Str)
  {
    var engine := c.engine(o.itemId);
    && Acceptable(w, o, c.now) && engine.takes && (engine.wrote.Some? ==> engine.wrote.value.id == o.itemId)
    && Keep(w, EMPTY, o, c.now, origin).Some?
  }

  /** A write touches no other item. */
  lemma WriteIsLocal(t: Tables, e: Envelope)
    requires Agrees(t) && Storable(e) && ValidTime(e.expires)
    ensures var t' := Persist(t, e, true).0;
            Agrees(t') && View(t).Keys <= View(t').Keys <= View(t).Keys + {e.id}
  {
    hide Agrees; hide View; hide Persist; hide Storable; hide Valid;
    PersistKeepsAgreement(t, e, true);
  }

  function IndexedIds(objects: seq<Indexed>): seq<Str>
  {
    seq(|objects|, i requires 0 <= i < |objects| => objects[i].item.itemId)
  }

  lemma {:induction false} WelcomeAreTaken(w: World, t: Tables, objects: seq<Indexed>, c: Choice, origin: Str)
    requires Agrees(t) && forall i | 0 <= i < |objects| :: Welcome(w, objects[i].item, c, origin)
    ensures var (t', ids) := TakeIn(w, t, objects, c, origin);
            && Agrees(t') && ids == IndexedIds(objects) && View(t').Keys == View(t).Keys + Elements(ids)
    decreases |objects|
  {
    hide Agrees; hide View; hide Keep; hide Acceptable; hide Persist; hide Storable;
    if objects != [] {
      var n := |objects| - 1;
      var o := objects[n].item;
      WelcomeAreTaken(w, t, objects[..n], c, origin);
      var (t1, ids) := TakeIn(w, t, objects[..n], c, origin);
      assert Welcome(w, o, c, origin);
      var wrote, t2 := c.engine(o.itemId).wrote, t1;
      if wrote.Some? && Storable(wrote.value) {
        StorableExpiry(wrote.value);
        WriteIsLocal(t1, wrote.value);
        t2 := Persist(t1, wrote.value, true).0;
      }
      KeepAnywhere(w, EMPTY, t2, o, c.now, origin);
      KeepGrows(w, t2, o, c.now, origin);
      assert IndexedIds(objects) == IndexedIds(objects[..n]) + [o.itemId];
      assert Elements(ids + [o.itemId]) == Elements(ids) + {o.itemId};
    }
  }

  /** What is missing on one side and still alive on the other. */
  ghost predicate Missing(t: Tables, messages: set<Str>, view: map<Str, Envelope>, asked: Time, id: Str)
  {
    KnownIn(t, messages)(id) == Want.Unknown && id in view && asked < view[id].expires
  }

  lemma LoadFromStore(w: World, view: map<Str, Envelope>, id: Str, asked: Time)
    requires HoldsServable(w, view) && id in view
    ensures var l := Load(w, view, id);
            l.Found? && l.item.itemId == id && (l.item.expiryMs > asked / MILLISECOND <==> asked < view[id].expires)
  {
    hide Base64Url.Encode; hide DecodeRaw; hide IsDigest; hide HoldsGenuine; hide ItemIdOf; hide ValidTime;
    GenuineEntry(w, view, id);
    CanonicalText(view[id].payload);
    MsBoundary(view[id].expires, asked);
  }

  lemma FilterBoth<T(!new)>(s: seq<T>, p: T -> bool, q: T -> bool, both: T -> bool)
    requires forall x | x in s :: both(x) <==> p(x) && q(x)
    ensures Filter(Filter(s, p), q) == Filter(s, both)
  {
    hide Filter;
    FilterMember(s, p);
    FilterTwice(s, p, both);
    FilterAgree(Filter(s, p), q, both);
  }

  /** The request for an honest relay's summary names exactly the previewed ids not known here. */
  lemma HonestWant(w: World, giver: Tables, asker: Peer, now: Time, s: Summary, messages: set<Str>)
    requires OwnSummary(w, giver, now, s) && asker.remote.Some? && asker.remote.value.maxWant == MAX_WANT
    ensures WantFor(w, asker, s, messages) == Filter(s.preview, x => KnownIn(asker.tables, messages)(x) == Want.Unknown)
  {
    hide Enumerate; hide IsDigest; hide Want.Chosen; hide Want.Wanted; hide FilterOf; hide Filter; hide Eligible;
    hide View;
    var items, known := Enumerate(Eligible(View(giver), now)), KnownIn(asker.tables, messages);
    Want.HonestPreviewIsRequested(w.sha, s.bloom, items, s.preview, MAX_WANT, known);
    FilterAgree(s.preview, x => known(x) == Want.Unknown, x => KnownIn(asker.tables, messages)(x) == Want.Unknown);
  }

  /** What is sent for it: the first 32 previewed ids that are missing there and still alive. */
  lemma HonestAnswer(w: World, giver: Tables, asker: Peer, now: Time, asked: Time, s: Summary, messages: set<Str>)
    requires OwnSummary(w, giver, now, s) && asker.remote.Some? && asker.remote.value.maxWant == MAX_WANT
    requires HoldsServable(w, View(giver))
    ensures var objects := ObjectsFor(w, giver, WantFor(w, asker, s, messages), asked);
            && DrainLoop.Ids(objects) ==
               Take(Filter(s.preview, x => Missing(asker.tables, messages, View(giver), asked, x)), MAX_TRANSFER)
            && (forall i | 0 <= i < |objects| :: Genuine(w, objects[i])) && Distinct(DrainLoop.Ids(objects))
  {
    hide View; hide Load; hide Genuine; hide HoldsServable; hide Filter; hide DrainLoop.Items; hide WantFor;
    hide Enumerate;
    hide WellBuilt; hide KnownIn; hide DrainLoop.Ids; hide Take;
    var view, want := View(giver), WantFor(w, asker, s, messages);
    var load := id => Load(w, view, id);
    var unexpired := id => load(id).Found? && load(id).item.expiryMs > asked / MILLISECOND;
    var missing := x => Missing(asker.tables, messages, view, asked, x);
    HonestWant(w, giver, asker, now, s, messages);
    PreviewInStore(w, giver, now, s);
    forall x | x in s.preview ensures unexpired(x) <==> asked < view[x].expires { LoadFromStore(w, view, x, asked); }
    FilterBoth(s.preview, x => KnownIn(asker.tables, messages)(x) == Want.Unknown, unexpired, missing);
    var chosen := Take(Filter(want, unexpired), MAX_TRANSFER);
    ChosenLoad(w, view, want, unexpired, chosen, load, asked);
    DrainLoop.IdsOfItems(load, chosen);
    WantIsDistinct(w, giver, asker, now, s, messages);
    HonestTransfersAreGenuine(w, giver, want, asked) by { ServableIsGenuine(w, view); }
  }

  lemma ServableIsGenuine(w: World, view: map<Str, Envelope>)
    requires HoldsServable(w, view)
    ensures HoldsGenuine(w, view)
  {
    hide HoldsGenuine;
  }

  lemma ChosenLoad(
    w: World, view: map<Str, Envelope>, want: seq<Str>, p: Str -> bool, chosen: seq<Str>, load: Str -> DrainLoop.Loaded,
    asked: Time)
    requires HoldsServable(w, view) && chosen == Take(Filter(want, p), MAX_TRANSFER)
    requires (forall id :: load(id) == Load(w, view, id)) && forall id :: p(id) ==> load(id).Found?
    ensures forall x | x in chosen :: load(x).Found? && load(x).item.itemId == x
  {
    hide Load; hide HoldsServable; hide Filter;
    FilterMember(want, p);
    forall x | x in chosen ensures load(x).Found? && load(x).item.itemId == x {
      var i :| 0 <= i < |chosen| && chosen[i] == x;
      assert Filter(want, p)[i] == x;
      assert x in Filter(want, p);
      ServableIsGenuine(w, view);
      LoadedIsGenuine(w, view, x);
    }
  }

  lemma PreviewInStore(w: World, giver: Tables, now: Time, s: Summary)
    requires OwnSummary(w, giver, now, s)
    ensures forall x | x in s.preview :: x in View(giver)
    ensures SortedDigests(s.preview)
  {
    hide View; hide Enumerate; hide IsDigest; hide FilterOf;
    var items := Enumerate(Eligible(View(giver), now));
    forall x | x in s.preview ensures x in View(giver) {
      var i :| 0 <= i < |s.preview| && s.preview[i] == x;
      assert items[i] == x;
      assert x in Elements(items);
    }
  }

  lemma WantIsDistinct(w: World, giver: Tables, asker: Peer, now: Time, s: Summary, messages: set<Str>)
    requires OwnSummary(w, giver, now, s)
    ensures Distinct(WantFor(w, asker, s, messages))
  {
    hide View; hide Enumerate; hide IsDigest; hide WantFor; hide WellBuilt;
    PreviewInStore(w, giver, now, s);
    WantIsGood(w, asker, s, messages);
    SortedDistinct(WantFor(w, asker, s, messages));
  }

  /** One exchange between honest relays: when the asker's engine takes what it is given, its
      store grows by exactly the first 32 previewed items that it misses and that are still
      alive, as far as their bytes keep to the budget, and these are what it acknowledges. */
  lemma ExchangeDelivers(
    w: World, giver: Tables, asker: Peer, now: Time, asked: Time, s: Summary, c: Choice, origin: Str)
    requires Agrees(asker.tables) && HoldsServable(w, View(giver)) && OwnSummary(w, giver, now, s)
    requires asker.remote.Some? && asker.remote.value.maxWant == MAX_WANT
    requires var objects := ObjectsFor(w, giver, WantFor(w, asker, s, c.messages), asked);
             forall i | 0 <= i < |objects| :: Welcome(w, objects[i], c, origin)
    ensures var objects := ObjectsFor(w, giver, WantFor(w, asker, s, c.messages), asked);
            var missing := x => Missing(asker.tables, c.messages, View(giver), asked, x);
            var alive := Take(Filter(s.preview, missing), MAX_TRANSFER);
            var (t', ids) := TakeIn(w, asker.tables, ParseList(w, WireObjects(objects)).objects, c, origin);
            && |objects| == |alive| && ids == alive[..FitCount(objects, |objects|)]
            && Agrees(t') && View(t').Keys == View(asker.tables).Keys + Elements(ids)
  {
    hide View; hide Agrees; hide HoldsServable; hide OwnSummary; hide WantFor; hide ObjectsFor; hide Welcome;
    hide Missing; hide Filter;
    hide TakeIn; hide WireObjects; hide Genuine; hide FitCount; hide Distinct; hide Objects; hide Rejections; hide Take;
    var objects := ObjectsFor(w, giver, WantFor(w, asker, s, c.messages), asked);
    HonestAnswer(w, giver, asker, now, asked, s, c.messages);
    ParsedPrefix(w, objects, |objects|);
    var parsed := ParseList(w, WireObjects(objects)).objects;
    assert parsed == Objects(w, WireObjects(objects), |objects|);
    WelcomeAreTaken(w, asker.tables, parsed, c, origin);
    assert IndexedIds(parsed) == DrainLoop.Ids(objects)[..FitCount(objects, |objects|)];
  }
}
