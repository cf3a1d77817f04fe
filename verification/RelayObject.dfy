/** What a relay stores for an accepted transfer object and what it serves for it later
    (`transferObjectToMessage`, `persistTransferEnvelope`, `loadTransferObjectByItemID` in
    internal/api/ws.go). */
module RelayObject {
  import opened ByteStrings
  import opened Ordered
  import opened Digest
  import opened Rfc3339
  import opened Envelopes
  import opened EnvelopeTables
  import opened EnvelopeStores
  import opened Protocol
  import opened Transfer
  import opened DrainLoop
  import opened Ingest
  import Base64Url

  const U64: int := 0x1_0000_0000_0000_0000

  /** Conversion of an unsigned to a signed 64-bit integer. */
  function ToInt64(u: nat): int
  {
    var v := u % U64;
    if v > INT64_MAX then v - U64 else v
  }

  /** ASCII white space; other space runes never survive base64 decoding. */
  predicate HasSpace(s: Str) { exists c | c in s :: 9 <= c <= 13 || c == 32 }

  function DecodePayloadB64(s: Str): Option<Str>
  {
    if s == [] || HasSpace(s) || Base64Url.PAD in s then None else Base64Url.Decode(s, true)
  }

  /** Validates an object and derives the message to store; `None` is a policy rejection. */
  function ToMessage(w: World, o: TransferObject, now: Time): Option<Message>
  {
    if !IsDigest(o.itemId) then None else
    var bytes := DecodeRaw(o.envelopeB64);
    if bytes.None? || w.parseItem(bytes.value).None? then None else
    var item := w.parseItem(bytes.value).value;
    if item.to == [] || item.from == [] || DecodePayloadB64(item.payloadB64).None? then None
    else if item.expiresAt > 0 && o.expiryMs != item.expiresAt * 1000 % U64 then None
    else if o.hopCount > MAX_HOPS || o.itemId != ItemIdOf(w, bytes.value) then None
    else
      var created := if item.createdAt > 0 then item.createdAt * SECOND else now;
      var expires := if item.expiresAt > 0 then item.expiresAt * SECOND else ToInt64(o.expiryMs) * MILLISECOND;
      if expires <= created && expires <= now then None
      else Some(Message(o.itemId, item.from, item.to, item.payloadB64,
                        if expires <= created then expires - SECOND else created, expires))
  }

  /** When an object counts as created and as expired: the signed times, or now and the announced
      expiry where nothing is signed. */
  function CreatedAt(o: TransferObject, now: Time): Time
  {
    if o.envelope.createdAt > 0 then o.envelope.createdAt * SECOND else now
  }

  function ExpiresAt(o: TransferObject): Time
  {
    if o.envelope.expiresAt > 0 then o.envelope.expiresAt * SECOND
    else if o.expiryMs % U64 <= INT64_MAX then o.expiryMs % U64 * MILLISECOND
    else (o.expiryMs % U64 - U64) * MILLISECOND
  }

  /** It names sender and recipient, its payload text decodes, a signed expiry is the announced one,
      and it expires after its creation or after now. */
  predicate Passes(o: TransferObject, now: Time)
  {
    && o.envelope.from != [] && o.envelope.to != [] && DecodePayloadB64(o.envelope.payloadB64).Some?
    && (o.envelope.expiresAt > 0 ==> o.expiryMs == o.envelope.expiresAt * 1000 % U64)
    && (ExpiresAt(o) > CreatedAt(o, now) || ExpiresAt(o) > now)
  }

  /** A genuine object passes validation exactly then. Its message says what was signed, created a
      second before its expiry where the creation is later. */
  lemma MessageIff(w: World, o: TransferObject, now: Time)
    requires Genuine(w, o)
    ensures var item, m := o.envelope, ToMessage(w, o, now);
            && (m.Some? <==> Passes(o, now))
            && (m.Some? ==>
                  && m.value.id == o.itemId && m.value.from == item.from && m.value.to == item.to
                  && m.value.payload == item.payloadB64 && m.value.expires == ExpiresAt(o)
                  && m.value.created ==
                     (if ExpiresAt(o) > CreatedAt(o, now) then CreatedAt(o, now) else ExpiresAt(o) - SECOND))
  {
    hide DecodeRaw; hide IsDigest; hide DecodePayloadB64; hide ItemIdOf;
  }

  /** Payload text is refused when it is empty, holds white space or padding, or does not decode;
      what the encoder writes is accepted. */
  lemma PayloadTextMeans(s: Str, b: Str)
    ensures DecodePayloadB64(s) == Some(b) <==>
              && s != [] && Base64Url.PAD !in s && (forall c | c in s :: !(9 <= c <= 13) && c != 32)
              && Base64Url.Decode(s, true) == Some(b)
    ensures b != [] ==> DecodePayloadB64(Base64Url.Encode(b)) == Some(b)
  {
    hide Base64Url.Decode; hide Base64Url.Encode;
    if b != [] {
      Base64Url.EncodeIsPlain(b);
      Base64Url.RoundTrip(b, true);
      PlainHasNoSpace(Base64Url.Encode(b));
    }
  }

  lemma PlainHasNoSpace(s: Str)
    requires Base64Url.Plain(s)
    ensures !HasSpace(s) && Base64Url.PAD !in s
  {
    forall c | c in s ensures !(9 <= c <= 13 || c == 32) && c != Base64Url.PAD {
      var i :| 0 <= i < |s| && s[i] == c;
      assert Base64Url.Value(s[i]).Some?;
    }
  }

  /** The stored envelope carries the message's times and recipient, the object's bytes and hops,
      and the relay it came from. */
  lemma StoredFields(w: World, o: TransferObject, m: Message, origin: Str)
    requires Genuine(w, o)
    ensures StoredEnvelope(o, m, origin) ==
            Some(Envelope(m.id, m.to, DecodeRaw(o.envelopeB64).value, origin, o.hopCount, m.created, m.expires))
  {
    hide Base64Url.Decode; hide IsDigest; hide ItemIdOf;
  }

  function StoredEnvelope(o: TransferObject, m: Message, origin: Str): Option<Envelope>
  {
    var bytes := Base64Url.Decode(o.envelopeB64, true);
    if bytes.None? then None
    else Some(Envelope(m.id, m.to, bytes.value, origin, o.hopCount, m.created, m.expires))
  }

  /** The object a stored envelope is served as, if its bytes still match its id and parse. */
  function Load(w: World, view: map<Str, Envelope>, id: Str): Loaded
  {
    if !IsDigest(id) || id !in view || view[id].payload == [] then Missing
    else
      var e := view[id];
      var text := Base64Url.Encode(e.payload);
      var bytes := DecodeRaw(text);
      if bytes.None? || ItemIdOf(w, bytes.value) != id || w.parseItem(bytes.value).None? then Missing
      else Found(TransferObject(id, text, e.expires / MILLISECOND % U64, e.hops % U64, w.parseItem(bytes.value).value))
  }

  // ---- one relay

  /** Accepting an object at a relay whose tables are `t`. */
  ghost function Keep(w: World, t: Tables, o: TransferObject, now: Time, origin: Str): Option<Tables>
  {
    var m := ToMessage(w, o, now);
    if m.None? then None else
    var e := StoredEnvelope(o, m.value, origin);
    if e.None? || !Storable(e.value) then None else
    var (t', ok) := Persist(t, e.value, true);
    if ok then Some(t') else None
  }

  /** Same item: id, envelope bytes, content, expiry and hop count. */
  ghost predicate SameItem(o: TransferObject, p: TransferObject)
  {
    && o.itemId == p.itemId && o.expiryMs == p.expiryMs && o.hopCount == p.hopCount && o.envelope == p.envelope
    && DecodeRaw(o.envelopeB64) == DecodeRaw(p.envelopeB64)
  }

  lemma CanonicalText(b: Str)
    requires b != []
    ensures DecodeRaw(Base64Url.Encode(b)) == Some(b)
  {
    hide Base64Url.Encode; hide Base64Url.Decode;
    Base64Url.RoundTrip(b, true);
    Base64Url.EncodeIsPlain(b);
    Base64Url.PlainIsNewlineFree(Base64Url.Encode(b));
  }

  lemma RawIsStrict(s: Str)
    requires DecodeRaw(s).Some?
    ensures Base64Url.Decode(s, true) == DecodeRaw(s)
  {
  }

  /** The expiry written is the expiry read, in milliseconds. */
  lemma ExpirySurvives(w: World, o: TransferObject, now: Time)
    requires ToMessage(w, o, now).Some? && o.expiryMs < U64 && ValidTime(ToMessage(w, o, now).value.expires)
    ensures ToMessage(w, o, now).value.expires / MILLISECOND % U64 == o.expiryMs
    ensures ToMessage(w, o, now).value.expires % MILLISECOND == 0
  {
    hide DecodeRaw; hide IsDigest; hide DecodePayloadB64; hide ItemIdOf; hide ValidTime;
    var item := w.parseItem(DecodeRaw(o.envelopeB64).value).value;
    var expires := ToMessage(w, o, now).value.expires;
    assert ValidTime(expires) ==> -U64 < expires < U64 by { ValidTimeBound(expires); }
    if item.expiresAt > 0 {
      SecondsToMs(item.expiresAt);
    } else {
      SignedMs(o.expiryMs);
    }
  }

  lemma ValidTimeBound(t: Time)
    ensures ValidTime(t) ==> -U64 < t < U64
  {
  }

  lemma SecondsToMs(s: int)
    requires s > 0 && s * SECOND < U64
    ensures s * SECOND / MILLISECOND == s * 1000 && s * SECOND % MILLISECOND == 0 && s * 1000 % U64 == s * 1000
  {
    assert s * SECOND == s * 1000 * MILLISECOND;
  }

  lemma SignedMs(ms: nat)
    requires ms < U64
    ensures ToInt64(ms) * MILLISECOND / MILLISECOND % U64 == ms && ToInt64(ms) * MILLISECOND % MILLISECOND == 0
  {
  }

  /** Accepting an object sets exactly its own entry. */
  lemma KeepWrites(w: World, t: Tables, o: TransferObject, now: Time, origin: Str)
    requires Agrees(t) && Keep(w, t, o, now, origin).Some?
    ensures var t' := Keep(w, t, o, now, origin).value;
            var e := StoredEnvelope(o, ToMessage(w, o, now).value, origin).value;
            && Agrees(t') && e.id == o.itemId && Storable(e) && View(t') == View(t)[o.itemId := e]
  {
    hide Agrees; hide View; hide Persist; hide Base64Url.Decode; hide Storable; hide Valid; hide ToMessage;
    var e := StoredEnvelope(o, ToMessage(w, o, now).value, origin).value;
    MessageShape(w, o, now);
    StorableExpiry(e);
    PersistKeepsAgreement(t, e, true);
  }

  /** What is loaded for an entry holding the bytes, hops and expiry of a genuine object. */
  lemma LoadedAgain(w: World, view: map<Str, Envelope>, o: TransferObject)
    requires Genuine(w, o) && o.itemId in view
    requires view[o.itemId].hops == o.hopCount && view[o.itemId].expires / MILLISECOND % U64 == o.expiryMs
    requires Base64Url.Decode(o.envelopeB64, true) == Some(view[o.itemId].payload)
    ensures var l := Load(w, view, o.itemId);
            l.Found? && SameItem(o, l.item) && Genuine(w, l.item)
            && l.item.envelopeB64 == Base64Url.Encode(view[o.itemId].payload)
  {
    hide IsDigest; hide Base64Url.Encode; hide Base64Url.Decode; hide ItemIdOf; hide DecodeRaw;
    RawIsStrict(o.envelopeB64);
    RawNonEmpty(o.envelopeB64);
    CanonicalText(view[o.itemId].payload);
    SmallHops(o.hopCount);
  }

  lemma SmallHops(n: nat)
    requires n <= MAX_HOPS
    ensures n % U64 == n
  {
  }

  /** Validate, persist, decode from the tables, load: the same item comes out, still genuine,
      and its text too exactly when it held no CR or LF. */
  lemma RelayPreservesObject(w: World, t: Tables, o: TransferObject, now: Time, origin: Str)
    requires Agrees(t) && Genuine(w, o) && o.expiryMs < U64
    requires Keep(w, t, o, now, origin).Some?
    ensures var t' := Keep(w, t, o, now, origin).value;
            && Agrees(t')
            && var l := Load(w, View(t'), o.itemId);
               && l.Found? && SameItem(o, l.item) && Genuine(w, l.item)
               && l.item.envelopeB64 == Base64Url.DropNewlines(o.envelopeB64)
               && (l.item.envelopeB64 == o.envelopeB64 <==> Base64Url.NewlineFree(o.envelopeB64))
  {
    hide Agrees; hide View; hide Keep; hide Load; hide Genuine; hide Base64Url.Encode; hide Base64Url.Decode;
    hide Storable;
    hide ToMessage; hide SameItem; hide Base64Url.NewlineFree; hide Base64Url.DropNewlines;
    KeepWrites(w, t, o, now, origin);
    KeepHasMessage(w, t, o, now, origin);
    var e := StoredEnvelope(o, ToMessage(w, o, now).value, origin).value;
    StorableExpiry(e);
    ExpirySurvives(w, o, now);
    LoadedAgain(w, View(Keep(w, t, o, now, origin).value), o);
    Base64Url.StrictTextPreserved(o.envelopeB64);
  }

  lemma KeepHasMessage(w: World, t: Tables, o: TransferObject, now: Time, origin: Str)
    requires Keep(w, t, o, now, origin).Some?
    ensures ToMessage(w, o, now).Some? && StoredEnvelope(o, ToMessage(w, o, now).value, origin).Some?
  {
    hide ToMessage; hide StoredEnvelope; hide Persist;
  }

  lemma RawNonEmpty(s: Str)
    requires DecodeRaw(s).Some?
    ensures DecodeRaw(s).value != []
  {
  }

  lemma StorableExpiry(e: Envelope)
    requires Storable(e)
    ensures ValidTime(e.expires)
  {
  }

  lemma MessageShape(w: World, o: TransferObject, now: Time)
    requires ToMessage(w, o, now).Some?
    ensures ToMessage(w, o, now).value.id == o.itemId
    ensures DecodeRaw(o.envelopeB64).Some? && w.parseItem(DecodeRaw(o.envelopeB64).value).Some?
    ensures ToMessage(w, o, now).value.to == w.parseItem(DecodeRaw(o.envelopeB64).value).value.to
  {
    hide IsDigest; hide DecodeRaw; hide DecodePayloadB64; hide ItemIdOf; hide ToInt64;
  }

  /** Every accepted object makes a valid envelope, so only the store's own limits refuse it. */
  lemma AcceptedEnvelopeIsValid(w: World, o: TransferObject, now: Time, origin: Str)
    requires ToMessage(w, o, now).Some? && StoredEnvelope(o, ToMessage(w, o, now).value, origin).Some?
    requires InCodecRange(StoredEnvelope(o, ToMessage(w, o, now).value, origin).value)
    ensures Valid(StoredEnvelope(o, ToMessage(w, o, now).value, origin).value)
  {
    hide DecodeRaw; hide DecodePayloadB64; hide ItemIdOf; hide ToInt64; hide Base64Url.Decode;
    assert !IsDigest([]);
    assert !ValidTime(ZERO_TIME);
  }

  // ---- what the store takes

  /** Whatever validates, fits the codec and makes keys of at most 32768 bytes is kept, whatever
      else the store holds. */
  lemma SmallObjectsAreKept(w: World, t: Tables, o: TransferObject, now: Time, origin: Str)
    requires ToMessage(w, o, now).Some? && StoredEnvelope(o, ToMessage(w, o, now).value, origin).Some?
    requires var e := StoredEnvelope(o, ToMessage(w, o, now).value, origin).value;
             Storable(e) && |e.destination| <= 32703 && |e.payload| <= 0x7000_0000
    ensures Keep(w, t, o, now, origin).Some?
  {
    hide ToMessage; hide Encode; hide Rfc3339.Text; hide PutInt64; hide Base64Url.Decode; hide Valid;
    var e := StoredEnvelope(o, ToMessage(w, o, now).value, origin).value;
    StorableExpiry(e);
    MessageShape(w, o, now);
    AcceptedEnvelopeIsValid(w, o, now, origin);
    MessageIdLength(w, o, now);
    SmallIsHeld(e);
    PersistTakes(t, e);
  }

  /** The store takes whatever validates and fits. */
  predicate CanHold(e: Envelope) { ValidTime(e.expires) && Valid(e) && PutsAccepted(e) }

  lemma SmallIsHeld(e: Envelope)
    requires Storable(e) && Valid(e) && |e.id| + |e.destination| + 1 <= 32768 && |e.id| <= 32737
    requires |e.payload| <= 0x7000_0000
    ensures CanHold(e)
  {
    hide Encode; hide Rfc3339.Text; hide PutInt64; hide Valid;
    StorableExpiry(e);
    EncodedLength(e);
    TextLength(e.expires);
    ValidHasId(e);
  }

  lemma ValidHasId(e: Envelope)
    requires Valid(e)
    ensures e.id != []
  {
  }

  lemma MessageIdLength(w: World, o: TransferObject, now: Time)
    requires ToMessage(w, o, now).Some?
    ensures |o.itemId| == 64
  {
    hide DecodeRaw; hide DecodePayloadB64; hide ItemIdOf; hide ToInt64; hide HexDecode; hide ToLower;
  }

  lemma PersistTakes(t: Tables, e: Envelope)
    requires ValidTime(e.expires) && Valid(e) && PutsAccepted(e)
    ensures Persist(t, e, true).1
  {
    hide Valid; hide PutsAccepted; hide Decode;
  }

  // ---- stores filled by accepting

  /** Every entry holds the bytes of a genuine object under their own hash. */
  ghost predicate HoldsGenuine(w: World, view: map<Str, Envelope>)
  {
    forall id | id in view ::
      && view[id].payload != [] && w.canonical(view[id].payload) && w.parseItem(view[id].payload).Some?
      && id == ItemIdOf(w, view[id].payload) && 0 <= view[id].hops <= MAX_HOPS
  }

  lemma KeepKeepsGenuine(w: World, t: Tables, o: TransferObject, now: Time, origin: Str)
    requires Agrees(t) && Genuine(w, o) && HoldsGenuine(w, View(t)) && Keep(w, t, o, now, origin).Some?
    ensures HoldsGenuine(w, View(Keep(w, t, o, now, origin).value))
  {
    hide Agrees; hide View; hide Keep; hide Storable; hide ToMessage; hide ItemIdOf; hide DecodeRaw;
    hide Base64Url.Decode;
    KeepHasMessage(w, t, o, now, origin);
    KeepWrites(w, t, o, now, origin);
    RawIsStrict(o.envelopeB64);
    RawNonEmpty(o.envelopeB64);
  }

  datatype Accepted = Accepted(item: TransferObject, now: Time, origin: Str)

  /** The tables after accepting objects one after the other; refused ones change nothing. */
  ghost function Fill(w: World, t: Tables, objects: seq<Accepted>): Tables
    decreases |objects|
  {
    if objects == [] then t
    else
      var kept := Keep(w, t, objects[0].item, objects[0].now, objects[0].origin);
      Fill(w, if kept.Some? then kept.value else t, objects[1..])
  }

  lemma {:induction false} FilledStoreIsGenuine(w: World, t: Tables, objects: seq<Accepted>)
    requires Agrees(t) && HoldsGenuine(w, View(t)) && forall i | 0 <= i < |objects| :: Genuine(w, objects[i].item)
    ensures Agrees(Fill(w, t, objects)) && HoldsGenuine(w, View(Fill(w, t, objects)))
    decreases |objects|
  {
    hide Agrees; hide View; hide Keep; hide Genuine; hide HoldsGenuine; hide StoredEnvelope; hide ToMessage;
    hide Storable;
    if objects != [] {
      var a := objects[0];
      var kept := Keep(w, t, a.item, a.now, a.origin);
      if kept.Some? {
        KeepKeepsGenuine(w, t, a.item, a.now, a.origin);
        KeepHasMessage(w, t, a.item, a.now, a.origin);
        KeepWrites(w, t, a.item, a.now, a.origin);
      }
      FilledStoreIsGenuine(w, if kept.Some? then kept.value else t, objects[1..]);
    }
  }

  lemma NothingIsServable(w: World)
    ensures HoldsServable(w, View(EMPTY)) && Agrees(EMPTY)
  {
    EmptyAgrees();
  }

  /** Whatever such a store serves is genuine. */
  lemma LoadedIsGenuine(w: World, view: map<Str, Envelope>, id: Str)
    requires HoldsGenuine(w, view)
    ensures var l := Load(w, view, id); l.Found? ==> Genuine(w, l.item) && l.item.itemId == id
  {
    hide Base64Url.Encode; hide ItemIdOf; hide DecodeRaw; hide IsDigest; hide HoldsGenuine;
    if id in view && view[id].payload != [] && Load(w, view, id).Found? {
      CanonicalText(view[id].payload);
      EntryOf(w, view, id);
      SmallHops(view[id].hops);
    }
  }

  /** Moreover every entry is filed under its recipient and expires at a whole millisecond of
      Unix time. */
  ghost predicate HoldsServable(w: World, view: map<Str, Envelope>)
  {
    && HoldsGenuine(w, view)
    && forall id | id in view ::
         && w.parseItem(view[id].payload).Some? && view[id].destination == w.parseItem(view[id].payload).value.to
         && 0 < view[id].expires && view[id].expires % MILLISECOND == 0 && ValidTime(view[id].expires)
  }

  lemma KeepKeepsServable(w: World, t: Tables, o: TransferObject, now: Time, origin: Str)
    requires Agrees(t) && Genuine(w, o) && HoldsServable(w, View(t)) && Keep(w, t, o, now, origin).Some?
    requires 0 < o.expiryMs <= INT64_MAX
    ensures HoldsServable(w, View(Keep(w, t, o, now, origin).value))
  {
    hide Agrees; hide View; hide Keep; hide Storable; hide ToMessage; hide DecodeRaw; hide Base64Url.Decode;
    hide HoldsGenuine;
    hide ValidTime;
    KeepKeepsGenuine(w, t, o, now, origin);
    KeepHasMessage(w, t, o, now, origin);
    KeepWrites(w, t, o, now, origin);
    MessageShape(w, o, now);
    RawIsStrict(o.envelopeB64);
    var m := ToMessage(w, o, now).value;
    StorableExpiry(StoredEnvelope(o, m, origin).value);
    ExpirySurvives(w, o, now);
    PositiveExpiry(w, o, now);
  }

  lemma PositiveExpiry(w: World, o: TransferObject, now: Time)
    requires ToMessage(w, o, now).Some? && 0 < o.expiryMs <= INT64_MAX
    ensures 0 < ToMessage(w, o, now).value.expires
  {
    hide DecodeRaw; hide IsDigest; hide DecodePayloadB64; hide ItemIdOf;
  }

  lemma {:induction false} FilledStoreIsServable(w: World, t: Tables, objects: seq<Accepted>)
    requires Agrees(t) && HoldsServable(w, View(t))
    requires forall i | 0 <= i < |objects| :: Genuine(w, objects[i].item) && 0 < objects[i].item.expiryMs <= INT64_MAX
    ensures Agrees(Fill(w, t, objects)) && HoldsServable(w, View(Fill(w, t, objects)))
    decreases |objects|
  {
    hide Agrees; hide View; hide Keep; hide Genuine; hide HoldsServable; hide StoredEnvelope; hide ToMessage;
    hide Storable;
    if objects != [] {
      var a := objects[0];
      var kept := Keep(w, t, a.item, a.now, a.origin);
      if kept.Some? {
        KeepKeepsServable(w, t, a.item, a.now, a.origin);
        KeepHasMessage(w, t, a.item, a.now, a.origin);
        KeepWrites(w, t, a.item, a.now, a.origin);
      }
      FilledStoreIsServable(w, if kept.Some? then kept.value else t, objects[1..]);
    }
  }

  /** From such a store an item is served exactly to its recipient and before its expiry. */
  lemma ServableIff(w: World, view: map<Str, Envelope>, id: Str, recipient: Str, at: Time)
    requires HoldsServable(w, view)
    ensures Servable(x => Load(w, view, x), recipient, at / MILLISECOND, id) <==>
              id in view && view[id].destination == recipient && at < view[id].expires
  {
    hide Base64Url.Encode; hide DecodeRaw; hide IsDigest; hide HoldsGenuine; hide ItemIdOf; hide ValidTime;
    if id in view {
      GenuineEntry(w, view, id);
      CanonicalText(view[id].payload);
      MsBoundary(view[id].expires, at);
    }
  }

  lemma GenuineEntry(w: World, view: map<Str, Envelope>, id: Str)
    requires HoldsGenuine(w, view) && id in view
    ensures view[id].payload != [] && id == ItemIdOf(w, view[id].payload) && IsDigest(id)
  {
    DigestBijection(w.sha(view[id].payload), id);
  }

  lemma EntryOf(w: World, view: map<Str, Envelope>, id: Str)
    requires HoldsGenuine(w, view) && id in view
    ensures w.canonical(view[id].payload) && 0 <= view[id].hops <= MAX_HOPS
  {
  }

  // ---- chains of relays

  /** A store operation on another item. */
  predicate Elsewhere(op: EnvelopeTables.Op, id: Str)
  {
    match op
    case OpPersist(e, _) => e.id != id
    case OpRemove(other, _) => other != id
    case OpReopen => true
  }

  lemma {:induction false} EntrySurvives(view: map<Str, Envelope>, ops: seq<EnvelopeTables.Op>, id: Str)
    requires id in view
    requires forall i | 0 <= i < |ops| :: EnvelopeTables.Sensible(ops[i]) && Elsewhere(ops[i], id)
    ensures id in RunView(view, ops) && RunView(view, ops)[id] == view[id]
    decreases |ops|
  {
    hide Storable; hide Valid; hide PutsAccepted;
    if ops != [] { EntrySurvives(ApplyView(view, ops[0]), ops[1..], id); }
  }

  lemma LoadLooksAtEntry(w: World, v: map<Str, Envelope>, v': map<Str, Envelope>, id: Str)
    requires id in v && id in v' && v[id] == v'[id]
    ensures Load(w, v, id) == Load(w, v', id)
  {
    hide IsDigest; hide Base64Url.Encode; hide ItemIdOf; hide DecodeRaw;
  }

  /** A relay of a chain: its tables, when and from whom it accepts the item, and what happens to
      its store before it is asked for the item. */
  datatype Hop = Hop(tables: Tables, now: Time, origin: Str, ops: seq<EnvelopeTables.Op>)

  ghost predicate GoodHop(h: Hop, id: Str)
  {
    && Agrees(h.tables)
    && forall i | 0 <= i < |h.ops| :: EnvelopeTables.Sensible(h.ops[i]) && Elsewhere(h.ops[i], id)
  }

  /** What a relay serves for an item after accepting it and going on with other items. */
  ghost function ServedBy(w: World, o: TransferObject, h: Hop): Loaded
    requires GoodHop(h, o.itemId)
  {
    var t := Keep(w, h.tables, o, h.now, h.origin);
    if t.None? then Missing else Load(w, View(EnvelopeTables.Run(t.value, h.ops)), o.itemId)
  }

  /** Whatever else a relay stores, removes or reopens meanwhile, it serves what it accepted. */
  lemma RelayServesWhatItKept(w: World, o: TransferObject, h: Hop)
    requires Genuine(w, o) && o.expiryMs < U64 && GoodHop(h, o.itemId)
    requires Keep(w, h.tables, o, h.now, h.origin).Some?
    ensures var l := ServedBy(w, o, h);
            && l.Found? && SameItem(o, l.item) && Genuine(w, l.item)
            && l.item.envelopeB64 == Base64Url.DropNewlines(o.envelopeB64)
  {
    hide Agrees; hide View; hide Keep; hide Load; hide Genuine; hide SameItem; hide EnvelopeTables.Run; hide RunView;
    hide StoredEnvelope; hide ToMessage; hide Elsewhere; hide Storable; hide Base64Url.DropNewlines;
    hide Base64Url.NewlineFree;
    var t := Keep(w, h.tables, o, h.now, h.origin).value;
    RelayPreservesObject(w, h.tables, o, h.now, h.origin);
    KeepHasMessage(w, h.tables, o, h.now, h.origin);
    KeepWrites(w, h.tables, o, h.now, h.origin);
    RunsAgree(t, h.ops);
    EntrySurvives(View(t), h.ops, o.itemId);
    LoadLooksAtEntry(w, View(t), View(EnvelopeTables.Run(t, h.ops)), o.itemId);
  }

  /** What the last relay of a chain serves, when every relay keeps what the one before served. */
  ghost function Relayed(w: World, o: TransferObject, chain: seq<Hop>): Option<TransferObject>
    requires forall i | 0 <= i < |chain| :: GoodHop(chain[i], o.itemId)
    decreases |chain|
  {
    if chain == [] then Some(o)
    else
      var l := ServedBy(w, o, chain[0]);
      if l.Found? && l.item.itemId == o.itemId then Relayed(w, l.item, chain[1..]) else None
  }

  /** Along any chain of relays, with any work on other items in between, the item stays the
      same, and from the first relay on its text does too. */
  lemma {:induction false} ChainPreservesObject(w: World, o: TransferObject, chain: seq<Hop>)
    requires Genuine(w, o) && o.expiryMs < U64
    requires forall i | 0 <= i < |chain| :: GoodHop(chain[i], o.itemId)
    requires Relayed(w, o, chain).Some?
    ensures var p := Relayed(w, o, chain).value;
            && SameItem(o, p) && Genuine(w, p)
            && p.envelopeB64 == if chain == [] then o.envelopeB64 else Base64Url.DropNewlines(o.envelopeB64)
    decreases |chain|
  {
    hide GoodHop; hide Keep; hide Load; hide View; hide Genuine; hide DecodeRaw; hide EnvelopeTables.Run;
    if chain != [] {
      RelayServesWhatItKept(w, o, chain[0]);
      ChainPreservesObject(w, ServedBy(w, o, chain[0]).item, chain[1..]);
      DropTwice(o.envelopeB64);
    }
  }

  lemma {:induction false} DropTwice(s: Str)
    ensures Base64Url.DropNewlines(Base64Url.DropNewlines(s)) == Base64Url.DropNewlines(s)
  {
    if s != [] {
      DropTwice(s[1..]);
      var r := Base64Url.DropNewlines(s[1..]);
      assert s[0] != Base64Url.CR && s[0] != Base64Url.LF ==> ([s[0]] + r)[1..] == r;
      assert [] + r == r;
    }
  }

  // ---- listed and served

  /** An item kept for its recipient is listed as eligible while it is unexpired and served
      while its expiry is in a later millisecond: the two differ only at the very nanosecond of
      expiry. */
  lemma ListedIffServed(w: World, t: Tables, o: TransferObject, kept: Time, origin: Str, now: Time)
    requires Agrees(t) && Genuine(w, o) && o.expiryMs < U64 && Keep(w, t, o, kept, origin).Some?
    requires 0 < ToMessage(w, o, kept).value.expires
    ensures var view := View(Keep(w, t, o, kept, origin).value);
            var recipient := o.envelope.to;
            && (o.itemId in EligibleFor(view, recipient, now) <==> now <= ToMessage(w, o, kept).value.expires)
            && (Servable(id => Load(w, view, id), recipient, now / MILLISECOND, o.itemId) <==>
                  o.itemId in EligibleFor(view, recipient, now) && now != ToMessage(w, o, kept).value.expires)
  {
    hide Agrees; hide View; hide Persist; hide IsDigest; hide Base64Url.Decode; hide Storable; hide Valid; hide Load;
    hide ItemIdOf; hide ToMessage; hide DecodeRaw;
    var m := ToMessage(w, o, kept).value;
    var e := StoredEnvelope(o, m, origin).value;
    MessageShape(w, o, kept);
    StorableExpiry(e);
    PersistKeepsAgreement(t, e, true);
    RelayPreservesObject(w, t, o, kept, origin);
    ExpirySurvives(w, o, kept);
    MsBoundary(m.expires, now);
  }

  lemma MsBoundary(expires: Time, now: Time)
    requires expires % MILLISECOND == 0 && 0 < expires && ValidTime(expires)
    ensures expires / MILLISECOND % U64 > now / MILLISECOND <==> now < expires
  {
    assert expires / MILLISECOND % U64 == expires / MILLISECOND;
  }
}
