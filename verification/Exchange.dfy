/** One exchange through the handlers of two relays (internal/federation/peering.go): what each of
    them sends for what it receives, and what the whole exchange leaves behind. */
module Exchange {
  import opened ByteStrings
  import opened GossipLimits
  import opened Ordered
  import opened Digest
  import opened Rfc3339
  import opened Envelopes
  import opened EnvelopeTables
  import opened EnvelopeStores
  import opened Bloom
  import opened Protocol
  import opened Transfer
  import opened Sessions
  import opened SessionRuns
  import opened RelayObject
  import opened Lockstep
  import Base64Url
  import DrainLoop
  import Ingest
  import Want

  /** A session past HELLO, between messages. */
  ghost predicate Connected(p: Peer) { GoodSession(p.session) && p.session.helloValidated }

  function Heard(p: Peer, kind: string): Peer { p.(session := p.session.(lastKind := kind)) }

  // ---- each message

  /** HELLO is answered with HELLO, unless that was sent, and with the summary, once. */
  lemma HelloAnswered(w: World, p: Peer, h: Hello, c: Choice)
    requires Faithful(w) && Fits(w, HelloMsg(h)) && GoodSession(p.session) && ParseHello(w, HelloPayload(h)) == Some(h)
    ensures Receive(w, p, Bytes(w, HelloMsg(h)), c) ==
            if p.remote.Some? && p.remote.value.nodeId != h.nodeId then Breaks
            else Goes(
              p.(session := p.session.(lastKind := "HELLO", helloValidated := true), remote := Some(h),
                 helloSent := true, summarySent := true),
              (if p.helloSent then [] else [HelloMsg(BuildRelayHello(w, p.relayId))])
              + (if p.summarySent then [] else [SummaryMsg(c.summary)]))
  {
    hide Push; hide Fits; hide Bytes; hide HelloPayload; hide ParseHello; hide BuildRelayHello; hide ReactAll;
    HelloArrives(w, p.session, h);
    OneEvent(w, p.(session := p.session.(lastKind := "HELLO", helloValidated := true)), HelloValidated(h), c);
  }

  /** What of a preview a peer does not know. */
  ghost function Unknown(p: Peer, messages: set<Str>, preview: seq<Str>): seq<Str>
  {
    var view := View(p.tables);
    Filter(preview, x => x !in view && x !in messages)
  }

  /** An honest summary is answered with one request, for exactly the previewed ids not known here, or
      with nothing if there are none. */
  lemma SummaryAnswered(w: World, p: Peer, peerId: Str, s: Summary, items: seq<Str>, c: Choice)
    requires Faithful(w) && Fits(w, SummaryMsg(s)) && Connected(p) && p.remote == Some(BuildRelayHello(w, peerId))
    requires WellBuilt(w, s, items) && forall x | x in s.preview :: x in items
    ensures var unknown := Unknown(p, c.messages, s.preview);
            && WantFor(w, p, s, c.messages) == unknown
            && Receive(w, p, Bytes(w, SummaryMsg(s)), c) ==
               if unknown == [] then Goes(Heard(p, "SUMMARY"), [])
               else Goes(Heard(p, "SUMMARY").(requesting := true), [RequestMsg(unknown)])
  {
    hide Push; hide Fits; hide Bytes; hide ReactAll; hide GoodSession; hide WellBuilt; hide ParseSummary;
    hide SummaryPayload;
    hide WantFor; hide View; hide BuildRelayHello;
    SummaryParses(w, s, items);
    SummaryArrives(w, p.session, s);
    var heard := Heard(p, "SUMMARY");
    SessionKept(p.session, "SUMMARY", p.session.helloValidated);
    HealthyOf(heard);
    OneEvent(w, heard, SummaryReceived(s), c);
    WantIsUnknown(w, p, peerId, s, items, c.messages);
    WantLooks(w, p, heard, s, c.messages);
  }

  lemma WantLooks(w: World, p: Peer, q: Peer, s: Summary, messages: set<Str>)
    requires p.tables == q.tables && p.remote == q.remote
    ensures WantFor(w, p, s, messages) == WantFor(w, q, s, messages)
  {
    hide Enumerate; hide Want.Chosen; hide Want.Wanted; hide View;
  }

  lemma WantIsUnknown(w: World, p: Peer, peerId: Str, s: Summary, items: seq<Str>, messages: set<Str>)
    requires p.remote == Some(BuildRelayHello(w, peerId))
    requires WellBuilt(w, s, items) && forall x | x in s.preview :: x in items
    ensures WantFor(w, p, s, messages) == Unknown(p, messages, s.preview)
  {
    hide Enumerate; hide IsDigest; hide Want.Chosen; hide Want.Wanted; hide FilterOf; hide Filter; hide View;
    hide BuildRelayHello;
    RelayHelloSays(w, peerId);
    var known, view := KnownIn(p.tables, messages), View(p.tables);
    Want.HonestPreviewIsRequested(w.sha, s.bloom, items, s.preview, MAX_WANT, known);
    FilterAgree(s.preview, x => known(x) == Want.Unknown, x => x !in view && x !in messages);
  }

  /** A request is answered with the first 32 wanted objects that are there and alive, as stored, and a
      receipt is expected for exactly them. */
  lemma RequestAnswered(w: World, p: Peer, want: seq<Str>, c: Choice) returns (items: seq<TransferObject>)
    requires Faithful(w) && Fits(w, RequestMsg(want)) && Connected(p)
    requires want != [] && |want| <= MAX_WANT && SortedDigests(want) && HoldsServable(w, View(p.tables))
    ensures var view := View(p.tables);
            var alive := Take(Filter(want, x => x in view && c.now < view[x].expires), MAX_TRANSFER);
            && items == ObjectsFor(w, p.tables, want, c.now) && DrainLoop.Ids(items) == alive
            && (forall i | 0 <= i < |items| :: Load(w, view, items[i].itemId) == DrainLoop.Found(items[i]))
            && (forall i | 0 <= i < |items| :: Genuine(w, items[i])) && Distinct(alive)
    ensures var session := SetExpected(Heard(p, "REQUEST").session, DrainLoop.Ids(items));
            && Receive(w, p, Bytes(w, RequestMsg(want)), c) == Goes(p.(session := session), [TransferMsg(items)])
            && session.awaiting && session.order == DrainLoop.Ids(items) && Connected(p.(session := session))
  {
    hide Push; hide Fits; hide Bytes; hide ReactAll; hide GoodSession; hide View; hide ObjectsFor; hide HoldsServable;
    hide Filter;
    hide Load; hide Genuine; hide IsDigest; hide Compare; hide Distinct; hide DrainLoop.Ids;
    items := ObjectsFor(w, p.tables, want, c.now);
    RequestArrives(w, p.session, want);
    var heard := Heard(p, "REQUEST");
    SessionKept(p.session, "REQUEST", p.session.helloValidated);
    HealthyOf(heard);
    OneEvent(w, heard, RequestReceived(want), c);
    BuiltObjects(w, p.tables, want, c.now);
    ExpectingIsGood(heard.session, DrainLoop.Ids(items));
    ExpectedInOrder(DrainLoop.Ids(items));
  }

  /** What is built for a request from such a store. */
  lemma BuiltObjects(w: World, t: Tables, want: seq<Str>, now: Time)
    requires SortedDigests(want) && HoldsServable(w, View(t))
    ensures var items, view := ObjectsFor(w, t, want, now), View(t);
            && DrainLoop.Ids(items) == Take(Filter(want, x => x in view && now < view[x].expires), MAX_TRANSFER)
            && (forall i | 0 <= i < |items| :: Load(w, view, items[i].itemId) == DrainLoop.Found(items[i]))
            && (forall i | 0 <= i < |items| :: Genuine(w, items[i]))
            && Distinct(DrainLoop.Ids(items)) && [] !in DrainLoop.Ids(items)
  {
    hide View; hide HoldsServable; hide Filter; hide Load; hide Genuine; hide IsDigest; hide Compare;
    hide DrainLoop.Items;
    var view := View(t);
    var load := id => Load(w, view, id);
    var unexpired := id => load(id).Found? && load(id).item.expiryMs > now / MILLISECOND;
    SortedDistinct(want);
    ServableIsGenuine(w, view);
    forall x | x in want ensures unexpired(x) <==> x in view && now < view[x].expires { LoadedIff(w, view, x, now); }
    FilterAgree(want, unexpired, x => x in view && now < view[x].expires);
    var chosen := Take(Filter(want, unexpired), MAX_TRANSFER);
    ChosenLoad(w, view, want, unexpired, chosen, load, now);
    DrainLoop.IdsOfItems(load, chosen);
    HonestTransfersAreGenuine(w, t, want, now);
    BuiltAreLoaded(w, t, want, now);
    GenuineIdsNonEmpty(w, ObjectsFor(w, t, want, now));
  }

  lemma LoadedIff(w: World, view: map<Str, Envelope>, id: Str, now: Time)
    requires HoldsServable(w, view)
    ensures var l := Load(w, view, id);
            l.Found? && l.item.expiryMs > now / MILLISECOND <==> id in view && now < view[id].expires
  {
    hide HoldsServable;
    if id in view { LoadFromStore(w, view, id, now); }
  }

  lemma GenuineIdsNonEmpty(w: World, items: seq<TransferObject>)
    requires forall i | 0 <= i < |items| :: Genuine(w, items[i])
    ensures [] !in DrainLoop.Ids(items)
  {
    hide DecodeRaw; hide ItemIdOf; hide IsDigest;
    EmptyIsNoDigest();
    forall i | 0 <= i < |items| ensures DrainLoop.Ids(items)[i] != [] { assert Genuine(w, items[i]); }
  }

  lemma {:induction false} ItemsAre(load: Str -> DrainLoop.Loaded, ids: seq<Str>)
    requires forall x | x in ids :: load(x).Found?
    ensures |DrainLoop.Items(load, ids)| == |ids|
    ensures forall i | 0 <= i < |ids| :: DrainLoop.Items(load, ids)[i] == load(ids[i]).item
  {
    if ids != [] {
      var n := |ids| - 1;
      assert ids == ids[..n] + [ids[n]];
      assert ids[n] in ids;
      ItemsAre(load, ids[..n]);
    }
  }

  /** What is built for a request is what is loaded. */
  lemma BuiltAreLoaded(w: World, t: Tables, want: seq<Str>, now: Time)
    requires HoldsGenuine(w, View(t))
    ensures var objects := ObjectsFor(w, t, want, now);
            forall i | 0 <= i < |objects| :: Load(w, View(t), objects[i].itemId) == DrainLoop.Found(objects[i])
  {
    hide View; hide Load; hide HoldsGenuine; hide Filter; hide DrainLoop.Items;
    var view := View(t);
    var load := id => Load(w, view, id);
    var unexpired := id => load(id).Found? && load(id).item.expiryMs > now / MILLISECOND;
    var chosen := Take(Filter(want, unexpired), MAX_TRANSFER);
    FilterMember(want, unexpired);
    forall x | x in chosen ensures load(x).Found? {
      var i :| 0 <= i < |chosen| && chosen[i] == x;
      assert Filter(want, unexpired)[i] == x;
      assert x in Filter(want, unexpired) && unexpired(x);
    }
    ItemsAre(load, chosen);
    var objects := ObjectsFor(w, t, want, now);
    forall i | 0 <= i < |objects| ensures Load(w, view, objects[i].itemId) == DrainLoop.Found(objects[i]) {
      assert chosen[i] in chosen;
      assert objects[i] == load(chosen[i]).item;
      LoadedIsGenuine(w, view, chosen[i]);
    }
  }

  /** A transfer of genuine objects the engine takes is answered with one receipt, for exactly those
      within the byte budget, and the store has grown by them. */
  lemma TransferAnswered(w: World, p: Peer, items: seq<TransferObject>, c: Choice) returns (after: Peer, ids: seq<Str>)
    requires Faithful(w) && Fits(w, TransferMsg(items)) && Connected(p) && p.remote.Some? && Agrees(p.tables)
    requires |items| <= MAX_TRANSFER && (forall i | 0 <= i < |items| :: Genuine(w, items[i]))
    requires Distinct(DrainLoop.Ids(items))
    requires forall i | 0 <= i < |items| :: Welcome(w, items[i], c, p.remote.value.nodeId)
    ensures ids == DrainLoop.Ids(items)[..FitCount(items, |items|)]
    ensures Receive(w, p, Bytes(w, TransferMsg(items)), c) == Goes(after, [ReceiptMsg(Enumerate(Elements(ids)))])
    ensures after.tables == TakeIn(w, p.tables, ParseList(w, WireObjects(items)).objects, c, p.remote.value.nodeId).0
    ensures Agrees(after.tables) && View(after.tables).Keys == View(p.tables).Keys + Elements(ids)
    ensures after == Heard(p, "TRANSFER").(tables := after.tables, requesting := false,
                                           acknowledged := p.acknowledged + Elements(ids),
                                           removed := p.removed - Elements(ids))
  {
    hide Push; hide Fits; hide Bytes; hide ReactAll; hide GoodSession; hide View; hide Agrees; hide TakeIn;
    hide ParseList; hide Welcome;
    hide Genuine; hide Distinct; hide SortIds; hide WireObjects; hide FitCount; hide Objects; hide DrainLoop.Ids;
    hide Enumerate;
    var origin := p.remote.value.nodeId;
    var parsed := ParseList(w, WireObjects(items));
    TransferArrives(w, p.session, items);
    var heard := Heard(p, "TRANSFER");
    SessionKept(p.session, "TRANSFER", p.session.helloValidated);
    HealthyOf(heard);
    OneEvent(w, heard, TransferReceived(parsed), c);
    TakenExactly(w, p.tables, items, c, origin);
    var (tables, taken) := TakeIn(w, p.tables, parsed.objects, c, origin);
    ids := taken;
    SortIdsCorrect(ids);
    after := heard.(tables := tables, requesting := false, acknowledged := p.acknowledged + Elements(ids),
                    removed := p.removed - Elements(ids));
  }

  lemma TakenExactly(w: World, t: Tables, items: seq<TransferObject>, c: Choice, origin: Str)
    requires Agrees(t) && (forall i | 0 <= i < |items| :: Genuine(w, items[i])) && Distinct(DrainLoop.Ids(items))
    requires forall i | 0 <= i < |items| :: Welcome(w, items[i], c, origin)
    ensures var (t', ids) := TakeIn(w, t, ParseList(w, WireObjects(items)).objects, c, origin);
            && ids == DrainLoop.Ids(items)[..FitCount(items, |items|)] && Distinct(ids)
            && Agrees(t') && View(t').Keys == View(t).Keys + Elements(ids)
  {
    hide View; hide Agrees; hide TakeIn; hide Welcome; hide Genuine; hide WireObjects; hide FitCount; hide Objects;
    hide Rejections;
    ParsedPrefix(w, items, |items|);
    var parsed := ParseList(w, WireObjects(items)).objects;
    assert parsed == Objects(w, WireObjects(items), |items|);
    WelcomeAreTaken(w, t, parsed, c, origin);
    assert IndexedIds(parsed) == DrainLoop.Ids(items)[..FitCount(items, |items|)];
  }

  /** A receipt that acknowledges part of what was sent is recorded and settles the expectation. */
  lemma ReceiptAnswered(w: World, p: Peer, ids: seq<Str>, c: Choice)
    requires Faithful(w) && Fits(w, ReceiptMsg(ids)) && Connected(p)
    requires |ids| <= MAX_RECEIPT && Distinct(ids) && [] !in ids
    requires p.session.awaiting && forall x | x in ids :: x in p.session.order
    ensures Receive(w, p, Bytes(w, ReceiptMsg(ids)), c) ==
            Goes(p.(session := p.session.(lastKind := "RECEIPT", awaiting := false, order := [], index := map[]),
                    confirmed := p.confirmed + Elements(ids)), [])
  {
    hide Push; hide Fits; hide Bytes; hide ReactAll; hide GoodSession; hide Distinct;
    ReceiptArrives(w, p.session, ids);
    var s1 := p.session.(lastKind := "RECEIPT", awaiting := false, order := [], index := map[]);
    SettledIsGood(p.session, s1);
    HealthyOf(p.(session := s1));
    OneEvent(w, p.(session := s1), ReceiptReceived(ids, p.session.order), c);
  }

  /** An empty request is not answered. */
  lemma EmptyRequestAnswered(w: World, p: Peer, c: Choice)
    requires Faithful(w) && Fits(w, RequestMsg([])) && Connected(p)
    ensures Receive(w, p, Bytes(w, RequestMsg([])), c) == Goes(Heard(p, "REQUEST"), [])
  {
    hide Push; hide Fits; hide Bytes; hide ReactAll; hide GoodSession;
    RequestArrives(w, p.session, []);
    SessionKept(p.session, "REQUEST", p.session.helloValidated);
    HealthyOf(Heard(p, "REQUEST"));
    OneEvent(w, Heard(p, "REQUEST"), RequestReceived([]), c);
  }

  /** A message that passes its parser. */
  ghost predicate Arrives(m: Message)
  {
    match m
    case HelloMsg(_) => false
    case SummaryMsg(s) => ParseSummary(SummaryPayload(s)) == Some(s)
    case RequestMsg(want) => |want| <= MAX_WANT && SortedDigests(want)
    case TransferMsg(items) => |items| <= MAX_TRANSFER
    case ReceiptMsg(_) => false
  }

  /** Before HELLO a summary, a request or a transfer ends the session, however well formed. */
  lemma HelloFirst(w: World, p: Peer, m: Message, c: Choice)
    requires Faithful(w) && Fits(w, m) && GoodSession(p.session) && !p.session.helloValidated && Arrives(m)
    ensures Receive(w, p, Bytes(w, m), c) == Breaks
  {
    hide Push; hide Fits; hide Bytes; hide ReactAll; hide GoodSession; hide ParseSummary; hide SummaryPayload;
    hide ParseList; hide WireObjects; hide ReactSummary; hide ReactRequest; hide ReactTransfer;
    match m
    case SummaryMsg(s) =>
      SummaryArrives(w, p.session, s);
      OneEvent(w, Heard(p, "SUMMARY"), SummaryReceived(s), c);
    case RequestMsg(want) =>
      RequestArrives(w, p.session, want);
      OneEvent(w, Heard(p, "REQUEST"), RequestReceived(want), c);
    case TransferMsg(items) =>
      TransferArrives(w, p.session, items);
      OneEvent(w, Heard(p, "TRANSFER"), TransferReceived(ParseList(w, WireObjects(items))), c);
  }

  /** What an endpoint acknowledges of the objects it is given. */
  ghost predicate Takes(w: World, o: TransferObject, c: Choice, origin: Str)
  {
    && Passes(o, c.now) && (o.envelope.expiresAt <= 0 || o.envelope.expiresAt > o.envelope.createdAt)
    && c.engine(o.itemId).takes
    && var m := ToMessage(w, o, c.now);
       m.Some? && StoredEnvelope(o, m.value, origin).Some?
       && Storable(StoredEnvelope(o, m.value, origin).value) && CanHold(StoredEnvelope(o, m.value, origin).value)
  }

  ghost function TakenIds(w: World, objects: seq<Indexed>, c: Choice, origin: Str): seq<Str>
    decreases |objects|
  {
    if objects == [] then []
    else
      var o := objects[|objects| - 1].item;
      TakenIds(w, objects[..|objects| - 1], c, origin) + if Takes(w, o, c, origin) then [o.itemId] else []
  }

  /** Of genuine objects exactly those are acknowledged, in order, that pass validation, are not signed
      to expire by their creation, are taken by the engine and fit the store. */
  lemma {:induction false} TakenIff(w: World, t: Tables, objects: seq<Indexed>, c: Choice, origin: Str)
    requires forall i | 0 <= i < |objects| :: Genuine(w, objects[i].item)
    ensures TakeIn(w, t, objects, c, origin).1 == TakenIds(w, objects, c, origin)
    decreases |objects|
  {
    hide Acceptable; hide Keep; hide Persist; hide Genuine; hide Takes;
    if objects != [] {
      var n := |objects| - 1;
      TakenIff(w, t, objects[..n], c, origin);
      assert objects[..n + 1] == objects;
      var o, t1 := objects[n].item, TakeIn(w, t, objects[..n], c, origin).0;
      var wrote := c.engine(o.itemId).wrote;
      var t2 := if wrote.Some? && Storable(wrote.value) then Persist(t1, wrote.value, true).0 else t1;
      TakesIff(w, t2, o, c, origin);
    }
  }

  lemma TakesIff(w: World, t: Tables, o: TransferObject, c: Choice, origin: Str)
    requires Genuine(w, o)
    ensures Takes(w, o, c, origin) <==>
              Acceptable(w, o, c.now) && c.engine(o.itemId).takes && Keep(w, t, o, c.now, origin).Some?
  {
    hide ToMessage; hide Passes; hide Genuine; hide StoredEnvelope; hide Acceptable; hide Valid; hide PutsAccepted;
    hide Decode;
    AcceptableIff(w, o, c.now);
  }

  // ---- what the engine decides

  /** What a result of the ingest engine means to the peer's handler: whether the object is taken, and
      the envelope written for it. */
  function EngineOf(before: Ingest.Durable, id: Str, r: Ingest.Result): Engine
  {
    Engine(r.outcome.Done? && r.outcome.status in {Ingest.Accepted, Ingest.Duplicate, Ingest.SeenLoop},
           if id in r.store.envelopes && r.store.envelopes != before.envelopes then Some(r.store.envelopes[id])
           else None)
  }

  /** With working calls the engine takes an object that passed validation iff its payload keeps to
      the limit and it has not expired, whether new, there already or a loop; it writes that item's
      envelope only. */
  lemma EngineTakesIff(
    w: World, o: TransferObject, now: Time, c: Ingest.Config, d: Ingest.Durable, source: Str, maxPayload: int, at: Time,
    f: Ingest.Faults)
    requires Genuine(w, o) && Passes(o, now) && ValidTime(now)
    requires c.marking != Ingest.NoEnvelopeStore && Ingest.AllWork(f)
    requires o.itemId in d.envelopes ==> d.envelopes[o.itemId].id == o.itemId && Valid(d.envelopes[o.itemId])
    ensures ToMessage(w, o, now).Some?
    ensures var m := ToMessage(w, o, now);
            var engine := EngineOf(d, o.itemId, Ingest.Accept(c, d, source, m, maxPayload, at, f));
            && (engine.takes <==> (maxPayload > 0 ==> |o.envelope.payloadB64| <= maxPayload) && at <= ExpiresAt(o))
            && (engine.wrote.Some? ==> engine.wrote.value.id == o.itemId)
  {
    hide Genuine; hide ToMessage; hide Passes; hide Ingest.Accept; hide Valid;
    MessageIff(w, o, now);
    PassedIsValid(w, o, now);
    var m := ToMessage(w, o, now).value;
    Ingest.RefusalsMean(c, d, source, Some(m), maxPayload, at, f);
    if (maxPayload > 0 ==> |m.payload| <= maxPayload) && at <= m.expires {
      var e := Ingest.EnvelopeFor(Ingest.StoredFor(d, m.id), m, source);
      Ingest.TakesIn(c, d, source, m, maxPayload, at, f);
      if m.id in d.envelopes { ValidWithOrigin(d.envelopes[m.id], e); }
    }
  }

  lemma ValidWithOrigin(e: Envelope, e': Envelope)
    requires Valid(e) && e' == e.(origin := e'.origin)
    ensures Valid(e')
  {
  }

  lemma PassedIsValid(w: World, o: TransferObject, now: Time)
    requires Genuine(w, o) && Passes(o, now) && ValidTime(now) && ToMessage(w, o, now).Some?
    ensures Ingest.ValidMessage(ToMessage(w, o, now))
    ensures ToMessage(w, o, now).value.created <= ToMessage(w, o, now).value.expires
  {
    hide ToMessage; hide DecodeRaw; hide ItemIdOf; hide IsDigest; hide HexEncode;
    MessageIff(w, o, now);
    EmptyIsNoDigest();
  }

  // ---- what was taken in is served on

  lemma LoadLooks(w: World, view: map<Str, Envelope>, view': map<Str, Envelope>, id: Str)
    requires (id in view <==> id in view') && (id in view ==> view[id] == view'[id])
    ensures Load(w, view, id) == Load(w, view', id)
  {
    hide IsDigest; hide DecodeRaw; hide ItemIdOf;
  }

  /** The engine's write for an item, if any, leaves other entries as they are. */
  lemma WriteLeaves(t: Tables, wrote: Option<Envelope>, id: Str)
    requires Agrees(t) && (wrote.Some? ==> wrote.value.id != id)
    ensures var t' := if wrote.Some? && Storable(wrote.value) then Persist(t, wrote.value, true).0 else t;
            Agrees(t') && (id in View(t) <==> id in View(t')) && (id in View(t) ==> View(t)[id] == View(t')[id])
  {
    hide Agrees; hide View; hide Persist; hide Valid; hide PutsAccepted;
    if wrote.Some? && Storable(wrote.value) { PersistKeepsAgreement(t, wrote.value, true); }
  }

  /** Each object taken in is served from then on as the same item. */
  lemma {:induction false} TakenAreServed(
    w: World, t: Tables, objects: seq<Indexed>, c: Choice, origin: Str, k: nat)
    requires Agrees(t) && k < |objects|
    requires forall i | 0 <= i < |objects| ::
               Welcome(w, objects[i].item, c, origin) && Genuine(w, objects[i].item) && objects[i].item.expiryMs < U64
    requires forall i, j | 0 <= i < j < |objects| :: objects[i].item.itemId != objects[j].item.itemId
    ensures var l := Load(w, View(TakeIn(w, t, objects, c, origin).0), objects[k].item.itemId);
            l.Found? && SameItem(objects[k].item, l.item)
    decreases |objects|
  {
    hide Agrees; hide View; hide Keep; hide Persist; hide Genuine; hide Acceptable; hide Load; hide SameItem;
    hide Base64Url.DropNewlines; hide Base64Url.NewlineFree; hide ToMessage; hide StoredEnvelope;
    var n := |objects| - 1;
    var rest, o := objects[..n], objects[n].item;
    WelcomeAreTaken(w, t, rest, c, origin);
    var t1 := TakeIn(w, t, rest, c, origin).0;
    assert Welcome(w, o, c, origin) && Genuine(w, o);
    var wrote := c.engine(o.itemId).wrote;
    var t2 := if wrote.Some? && Storable(wrote.value) then Persist(t1, wrote.value, true).0 else t1;
    var id := objects[k].item.itemId;
    WriteAgrees(t1, wrote);
    KeepAnywhere(w, EMPTY, t2, o, c.now, origin);
    if k == n {
      RelayPreservesObject(w, t2, o, c.now, origin);
    } else {
      assert rest[k] == objects[k] && id != o.itemId;
      TakenAreServed(w, t, rest, c, origin, k);
      WriteLeaves(t1, wrote, id);
      KeepHasMessage(w, t2, o, c.now, origin);
      KeepWrites(w, t2, o, c.now, origin);
      LoadLooks(w, View(t1), View(Keep(w, t2, o, c.now, origin).value), id);
    }
  }

  lemma WriteAgrees(t: Tables, wrote: Option<Envelope>)
    requires Agrees(t)
    ensures Agrees(if wrote.Some? && Storable(wrote.value) then Persist(t, wrote.value, true).0 else t)
  {
    hide Agrees; hide View; hide Persist; hide Valid; hide PutsAccepted;
    if wrote.Some? && Storable(wrote.value) { PersistKeepsAgreement(t, wrote.value, true); }
  }

  /** The same of a whole transfer: what fits the byte budget is served on as it was sent. */
  lemma TransferIsServed(w: World, t: Tables, items: seq<TransferObject>, c: Choice, origin: Str)
    requires Agrees(t) && (forall i | 0 <= i < |items| :: Genuine(w, items[i]) && items[i].expiryMs < U64)
    requires Distinct(DrainLoop.Ids(items)) && forall i | 0 <= i < |items| :: Welcome(w, items[i], c, origin)
    ensures var view := View(TakeIn(w, t, ParseList(w, WireObjects(items)).objects, c, origin).0);
            forall i | 0 <= i < FitCount(items, |items|) :: ServesSame(w, view, items[i])
  {
    hide View; hide Agrees; hide TakeIn; hide Welcome; hide Genuine; hide WireObjects; hide FitCount; hide Objects;
    hide Rejections; hide Load; hide SameItem;
    ParsedPrefix(w, items, |items|);
    var parsed := ParseList(w, WireObjects(items)).objects;
    assert parsed == Objects(w, WireObjects(items), |items|);
    forall i, j | 0 <= i < j < |parsed| ensures parsed[i].item.itemId != parsed[j].item.itemId {
      assert DrainLoop.Ids(items)[i] != DrainLoop.Ids(items)[j];
    }
    forall i | 0 <= i < FitCount(items, |items|)
      ensures ServesSame(w, View(TakeIn(w, t, parsed, c, origin).0), items[i])
    {
      assert parsed[i].item == items[i];
      TakenAreServed(w, t, parsed, c, origin, i);
    }
  }

  /** Two stores serve an id as the same item. */
  ghost predicate ServesAlike(w: World, view: map<Str, Envelope>, view': map<Str, Envelope>, id: Str)
  {
    Load(w, view, id).Found? && ServesSame(w, view', Load(w, view, id).item) && Load(w, view, id).item.itemId == id
  }

  lemma ServedAlike(
    w: World, t: Tables, items: seq<TransferObject>, c: Choice, origin: Str, view: map<Str, Envelope>, ids: seq<Str>)
    requires Agrees(t) && (forall i | 0 <= i < |items| :: Genuine(w, items[i]) && Welcome(w, items[i], c, origin))
    requires forall i | 0 <= i < |items| :: Load(w, view, items[i].itemId) == DrainLoop.Found(items[i])
    requires Distinct(DrainLoop.Ids(items)) && ids == DrainLoop.Ids(items)[..FitCount(items, |items|)]
    ensures var view' := View(TakeIn(w, t, ParseList(w, WireObjects(items)).objects, c, origin).0);
            forall x | x in ids :: ServesAlike(w, view, view', x)
  {
    hide View; hide Agrees; hide TakeIn; hide Welcome; hide Genuine; hide WireObjects; hide FitCount; hide ParseList;
    hide Load; hide ServesSame; hide Distinct;
    forall i | 0 <= i < |items| ensures items[i].expiryMs < U64 { LoadedExpiry(w, view, items[i]); }
    TransferIsServed(w, t, items, c, origin);
    forall x | x in ids
      ensures ServesAlike(w, view, View(TakeIn(w, t, ParseList(w, WireObjects(items)).objects, c, origin).0), x)
    {
      var i :| 0 <= i < |ids| && ids[i] == x;
      assert DrainLoop.Ids(items)[i] == x && items[i].itemId == x;
    }
  }

  lemma LoadedExpiry(w: World, view: map<Str, Envelope>, o: TransferObject)
    requires Load(w, view, o.itemId) == DrainLoop.Found(o)
    ensures o.expiryMs < U64
  {
    hide IsDigest; hide DecodeRaw; hide ItemIdOf;
  }

  ghost predicate ServesSame(w: World, view: map<Str, Envelope>, o: TransferObject)
  {
    Load(w, view, o.itemId).Found? && SameItem(o, Load(w, view, o.itemId).item)
  }

  // ---- the whole exchange

  /** Frames over the previewed ids fit. */
  ghost predicate FramesFit(w: World, view: map<Str, Envelope>, preview: seq<Str>)
  {
    && (forall ids: seq<Str> | Sorted(ids) && (forall x | x in ids :: x in preview) ::
          Fits(w, RequestMsg(ids)) && Fits(w, ReceiptMsg(ids)))
    && (forall items: seq<TransferObject> | |items| <= MAX_TRANSFER
          && (forall i | 0 <= i < |items| ::
                items[i].itemId in preview && Load(w, view, items[i].itemId) == DrainLoop.Found(items[i])) ::
          Fits(w, TransferMsg(items)))
  }

  /** What a peer sends for a message, when its session goes on. */
  ghost predicate Sends(w: World, p: Peer, m: Message, c: Choice, after: Peer, sent: seq<Message>)
  {
    Fits(w, m) && Receive(w, p, Bytes(w, m), c) == Goes(after, sent)
  }

  lemma UnknownIsSorted(p: Peer, messages: set<Str>, preview: seq<Str>)
    requires SortedDigests(preview) && |preview| <= MAX_PREVIEW
    ensures var u := Unknown(p, messages, preview);
            SortedDigests(u) && |u| <= MAX_WANT && forall x | x in u :: x in preview
  {
    hide View; hide IsDigest; hide Compare;
    var view := View(p.tables);
    var f := x => x !in view && x !in messages;
    FilterMember(preview, f);
    FilterSorted(preview, f);
    var u := Filter(preview, f);
    forall i | 0 <= i < |u| ensures IsDigest(u[i]) {
      assert u[i] in preview;
      var j :| 0 <= j < |preview| && preview[j] == u[i];
    }
  }

  lemma SubsetOfTake(s: seq<Str>, n: nat, k: nat)
    requires k <= |Take(s, n)|
    ensures forall x | x in Take(s, n)[..k] :: x in s
  {
    forall x | x in Take(s, n)[..k] ensures x in s {
      var i :| 0 <= i < k && Take(s, n)[i] == x;
      assert s[i] == x;
    }
  }

  lemma ListsFit(w: World, view: map<Str, Envelope>, preview: seq<Str>, ids: seq<Str>)
    requires FramesFit(w, view, preview) && Sorted(ids) && forall x | x in ids :: x in preview
    ensures Fits(w, RequestMsg(ids)) && Fits(w, ReceiptMsg(ids))
  {
    hide Fits; hide Load; hide Sorted;
  }

  lemma TransferFits(w: World, view: map<Str, Envelope>, preview: seq<Str>, items: seq<TransferObject>)
    requires FramesFit(w, view, preview) && |items| <= MAX_TRANSFER
    requires forall i | 0 <= i < |items| ::
               items[i].itemId in preview && Load(w, view, items[i].itemId) == DrainLoop.Found(items[i])
    ensures Fits(w, TransferMsg(items))
  {
    hide Fits; hide Load; hide Sorted;
  }

  /** What of the wanted ids is there and alive, at most 32. */
  ghost function Alive(t: Tables, want: seq<Str>, now: Time): seq<Str>
  {
    var view := View(t);
    Take(Filter(want, x => x in view && now < view[x].expires), MAX_TRANSFER)
  }

  /** The giver's part: the transfer, which fits. */
  lemma GiverServes(w: World, b: Peer, want: seq<Str>, preview: seq<Str>, c: Choice)
    returns (b1: Peer, items: seq<TransferObject>)
    requires Faithful(w) && Connected(b) && HoldsServable(w, View(b.tables)) && FramesFit(w, View(b.tables), preview)
    requires want != [] && |want| <= MAX_WANT && SortedDigests(want) && forall x | x in want :: x in preview
    ensures Sends(w, b, RequestMsg(want), c, b1, [TransferMsg(items)]) && Fits(w, TransferMsg(items))
    ensures DrainLoop.Ids(items) == Alive(b.tables, want, c.now) && |items| <= MAX_TRANSFER
    ensures items == ObjectsFor(w, b.tables, want, c.now)
    ensures forall i | 0 <= i < |items| ::
              && items[i].itemId in preview && Load(w, View(b.tables), items[i].itemId) == DrainLoop.Found(items[i])
              && Genuine(w, items[i])
    ensures Distinct(DrainLoop.Ids(items)) && [] !in DrainLoop.Ids(items)
    ensures Connected(b1) && b1.session.awaiting && b1.session.order == DrainLoop.Ids(items)
    ensures b1.confirmed == b.confirmed && b1.tables == b.tables
  {
    hide View; hide HoldsServable; hide Load; hide Receive; hide Fits; hide Bytes; hide IsDigest; hide Compare;
    hide Filter; hide Genuine;
    hide GoodSession; hide DrainLoop.Ids; hide SetExpected; hide ObjectsFor; hide Distinct; hide Sorted; hide FramesFit;
    ListsFit(w, View(b.tables), preview, want);
    items := RequestAnswered(w, b, want, c);
    b1 := b.(session := SetExpected(Heard(b, "REQUEST").session, DrainLoop.Ids(items)));
    var view := View(b.tables);
    ItemsInPreview(items, want, x => x in view && c.now < view[x].expires, preview);
    GenuineIdsNonEmpty(w, items);
    TransferFits(w, view, preview, items);
  }

  /** The asker's part: it stores what fits the byte budget and acknowledges exactly that, and the
      giver records it. */
  lemma AskerTakes(
    w: World, a: Peer, b: Peer, items: seq<TransferObject>, preview: seq<Str>, view: map<Str, Envelope>,
    c3: Choice, c4: Choice)
    returns (a2: Peer, b2: Peer, ids: seq<Str>)
    requires Faithful(w) && Connected(a) && Connected(b) && a.remote.Some? && Agrees(a.tables)
    requires FramesFit(w, view, preview) && Fits(w, TransferMsg(items)) && |items| <= MAX_TRANSFER
    requires forall i | 0 <= i < |items| ::
               items[i].itemId in preview && Genuine(w, items[i]) && Welcome(w, items[i], c3, a.remote.value.nodeId)
    requires Distinct(DrainLoop.Ids(items)) && [] !in DrainLoop.Ids(items)
    requires b.session.awaiting && b.session.order == DrainLoop.Ids(items)
    ensures ids == DrainLoop.Ids(items)[..FitCount(items, |items|)]
    ensures Sends(w, a, TransferMsg(items), c3, a2, [ReceiptMsg(Enumerate(Elements(ids)))])
    ensures Sends(w, b, ReceiptMsg(Enumerate(Elements(ids))), c4, b2, [])
    ensures a2.tables == TakeIn(w, a.tables, ParseList(w, WireObjects(items)).objects, c3, a.remote.value.nodeId).0
    ensures Agrees(a2.tables) && View(a2.tables).Keys == View(a.tables).Keys + Elements(ids)
    ensures a2.acknowledged == a.acknowledged + Elements(ids) && b2.confirmed == b.confirmed + Elements(ids)
    ensures !a2.requesting && !b2.session.awaiting && b2.tables == b.tables
  {
    hide View; hide Agrees; hide Load; hide Welcome; hide Receive; hide Fits; hide Bytes; hide Compare; hide Genuine;
    hide FitCount;
    hide GoodSession; hide DrainLoop.Ids; hide TakeIn; hide ParseList; hide WireObjects; hide Distinct; hide Sorted;
    hide FramesFit;
    hide Enumerate; hide Elements;
    a2, ids := TransferAnswered(w, a, items, c3);
    ReceiptOfIds(items, ids, preview);
    var receipt := Enumerate(Elements(ids));
    ListsFit(w, view, preview, receipt);
    ReceiptAnswered(w, b, receipt, c4);
    b2 := b.(session := b.session.(lastKind := "RECEIPT", awaiting := false, order := [], index := map[]),
             confirmed := b.confirmed + Elements(receipt));
  }

  /** The asker `a` hears the giver `b`'s own summary. If it knows everything previewed, nothing is
      sent. Otherwise it sends one request for what it does not know; that makes the giver send
      one transfer of the first 32 of these that are still alive; that makes the asker store
      exactly those within the byte budget and acknowledge them; and that makes the giver record
      exactly these as confirmed. From then on both serve them as the same items. */
  lemma ExchangeThroughHandlers(
    w: World, a: Peer, b: Peer, s: Summary, now: Time, c1: Choice, c2: Choice, c3: Choice, c4: Choice)
    returns (a1: Peer, b1: Peer, a2: Peer, b2: Peer, items: seq<TransferObject>, ids: seq<Str>)
    requires Faithful(w) && Connected(a) && Connected(b) && a.remote == Some(BuildRelayHello(w, b.relayId))
    requires Agrees(a.tables) && HoldsServable(w, View(b.tables)) && OwnSummary(w, b.tables, now, s)
    requires Fits(w, SummaryMsg(s)) && FramesFit(w, View(b.tables), s.preview)
    requires forall x | x in s.preview && Load(w, View(b.tables), x).Found? ::
               Welcome(w, Load(w, View(b.tables), x).item, c3, a.remote.value.nodeId)
    ensures var unknown := Unknown(a, c1.messages, s.preview);
            if unknown == [] then Sends(w, a, SummaryMsg(s), c1, a1, [])
            else
              && Sends(w, a, SummaryMsg(s), c1, a1, [RequestMsg(unknown)])
              && Sends(w, b, RequestMsg(unknown), c2, b1, [TransferMsg(items)])
              && Sends(w, a1, TransferMsg(items), c3, a2, [ReceiptMsg(Enumerate(Elements(ids)))])
              && Sends(w, b1, ReceiptMsg(Enumerate(Elements(ids))), c4, b2, [])
              && DrainLoop.Ids(items) == Alive(b.tables, unknown, c2.now)
              && ids == DrainLoop.Ids(items)[..FitCount(items, |items|)]
              && Agrees(a2.tables) && View(a2.tables).Keys == View(a.tables).Keys + Elements(ids)
              && a2.acknowledged == a.acknowledged + Elements(ids) && b2.confirmed == b.confirmed + Elements(ids)
              && !a2.requesting && !b2.session.awaiting && b2.tables == b.tables
              && items == ObjectsFor(w, b.tables, WantFor(w, a, s, c1.messages), c2.now)
              && a2.tables == TakeIn(w, a.tables, ParseList(w, WireObjects(items)).objects, c3, a.remote.value.nodeId).0
              && forall x | x in ids :: ServesAlike(w, View(b.tables), View(a2.tables), x)
    ensures Unknown(a, c1.messages, s.preview) == WantFor(w, a, s, c1.messages) && a1.tables == a.tables
  {
    hide View; hide Agrees; hide HoldsServable; hide Load; hide Welcome; hide Receive; hide Fits; hide Bytes;
    hide BuildRelayHello;
    hide TakeIn; hide ParseList; hide WireObjects; hide ObjectsFor;
    hide WellBuilt; hide IsDigest; hide Compare; hide Filter; hide Unknown; hide Genuine; hide FitCount;
    hide GoodSession; hide Eligible;
    hide DrainLoop.Ids; hide Distinct; hide Sorted; hide FramesFit; hide Alive; hide Elements; hide Enumerate;
    hide WantFor;
    var eligible := Enumerate(Eligible(View(b.tables), now));
    PreviewOfItems(eligible, s.preview);
    PreviewInStore(w, b.tables, now, s);
    PreviewIsShort(w, s, eligible);
    SummaryAnswered(w, a, b.relayId, s, eligible, c1);
    UnknownIsSorted(a, c1.messages, s.preview);
    var unknown := Unknown(a, c1.messages, s.preview);
    a1 := if unknown == [] then Heard(a, "SUMMARY") else Heard(a, "SUMMARY").(requesting := true);
    b1, a2, b2, items, ids := b, a, b, [], [];
    if unknown != [] {
      SessionKept(a.session, "SUMMARY", a.session.helloValidated);
      b1, items := GiverServes(w, b, unknown, s.preview, c2);
      a2, b2, ids := AskerTakes(w, a1, b1, items, s.preview, View(b.tables), c3, c4);
      ServedAlike(w, a.tables, items, c3, a.remote.value.nodeId, View(b.tables), ids);
    }
  }

  lemma PreviewOfItems(items: seq<Str>, preview: seq<Str>)
    ensures preview == Take(items, MAX_PREVIEW) ==> forall x | x in preview :: x in items
  {
    if preview == Take(items, MAX_PREVIEW) {
      forall x | x in preview ensures x in items {
        var i :| 0 <= i < |preview| && preview[i] == x;
        assert items[i] == x;
      }
    }
  }

  lemma PreviewIsShort(w: World, s: Summary, items: seq<Str>)
    requires WellBuilt(w, s, items)
    ensures |s.preview| <= MAX_PREVIEW
  {
  }

  lemma ItemsInPreview(items: seq<TransferObject>, unknown: seq<Str>, p: Str -> bool, preview: seq<Str>)
    requires DrainLoop.Ids(items) == Take(Filter(unknown, p), MAX_TRANSFER) && forall x | x in unknown :: x in preview
    ensures |items| <= MAX_TRANSFER && forall i | 0 <= i < |items| :: items[i].itemId in preview
  {
    hide Filter;
    FilterMember(unknown, p);
    forall i | 0 <= i < |items| ensures items[i].itemId in preview {
      assert DrainLoop.Ids(items)[i] == items[i].itemId;
      assert Filter(unknown, p)[i] == items[i].itemId;
      assert items[i].itemId in Filter(unknown, p);
    }
  }

  lemma ReceiptOfIds(items: seq<TransferObject>, ids: seq<Str>, preview: seq<Str>)
    requires |items| <= MAX_TRANSFER && (forall i | 0 <= i < |items| :: items[i].itemId in preview)
    requires Distinct(DrainLoop.Ids(items)) && [] !in DrainLoop.Ids(items)
    requires ids == DrainLoop.Ids(items)[..FitCount(items, |items|)]
    ensures var receipt := Enumerate(Elements(ids));
            && Sorted(receipt) && Distinct(receipt) && [] !in receipt && |receipt| <= MAX_RECEIPT
            && (forall x | x in receipt :: x in preview && x in DrainLoop.Ids(items))
            && Elements(receipt) == Elements(ids)
  {
    hide Enumerate; hide FitCount; hide Compare; hide Sorted;
    var receipt := Enumerate(Elements(ids));
    SortedDistinct(receipt);
    DistinctCount(receipt);
    DistinctCount(ids);
    forall x | x in receipt ensures x in preview && x in DrainLoop.Ids(items) {
      assert x in Elements(receipt);
      var i :| 0 <= i < |ids| && ids[i] == x;
      assert DrainLoop.Ids(items)[i] == x && items[i].itemId == x;
    }
  }
}
