/** A client's TRANSFER to this relay (`handleTransfer` in internal/api/ws.go): every parsed object
    is stored or refused on its own, and the receipt lists the stored ones. */
module Uploads {
  import opened ByteStrings
  import opened GossipLimits
  import opened Ordered
  import opened Digest
  import opened Rfc3339
  import opened Envelopes
  import opened EnvelopeTables
  import opened EnvelopeStores
  import opened Protocol
  import opened Transfer
  import opened DrainHandlers
  import opened DrainLoop
  import opened RelayObject
  import opened Ingest
  import Base64Url
  import D = DrainSessions
  import Want

  /** How the store calls for each id turn out: looking its message up, storing the message, the
      engine's own envelope, and the transferred envelope. */
  datatype Imports = Imports(
    message: Str -> Want.Lookup, persist: Str -> bool, engine: Str -> bool, commit: Str -> bool)

  /** A committed write of an envelope, whatever it holds; times are 64-bit. */
  function Put(t: Tables, e: Envelope, commit: bool): Option<Tables>
  {
    if !ValidTime(e.expires) then None
    else
      var (t', ok) := Persist(t, e, commit);
      if ok then Some(t') else None
  }

  ghost function EngineWrites(t: Tables, m: Message, relayId: Str, commit: bool): Option<Tables>
  {
    Put(t, EnvelopeFor(if m.id in View(t) then Some(View(t)[m.id]) else None, m, relayId), commit)
  }

  /** One object: the tables after it and whether it is accepted. */
  ghost function ImportObject(w: World, t: Tables, o: TransferObject, now: Time, relayId: Str, f: Imports)
    : (Tables, bool)
    requires ToMessage(w, o, now).Some?
  {
    var m, known := ToMessage(w, o, now).value, f.message(o.itemId) == Want.Known;
    if !known && !f.persist(o.itemId) then (t, false)
    else
      var written := if known then Some(t) else EngineWrites(t, m, relayId, f.engine(o.itemId));
      if written.None? then (t, false)
      else
        var e := StoredEnvelope(o, m, []);
        var kept := if e.Some? then Put(written.value, e.value, f.commit(o.itemId)) else None;
        if kept.None? then (written.value, false) else (kept.value, true)
  }

  /** The tables and the accepted ids after the objects, and whether no lookup failed. */
  ghost function Import(w: World, t: Tables, objects: seq<Indexed>, now: Time, relayId: Str, f: Imports)
    : (Tables, seq<Str>, bool)
    decreases |objects|
  {
    if objects == [] then (t, [], true)
    else
      var (t1, ids, ok) := Import(w, t, objects[..|objects| - 1], now, relayId, f);
      var o := objects[|objects| - 1].item;
      if !ok || ToMessage(w, o, now).None? then (t1, ids, ok)
      else if f.message(o.itemId) == Want.Failed then (t1, ids, false)
      else
        var (t2, accepted) := ImportObject(w, t1, o, now, relayId, f);
        (t2, if accepted then ids + [o.itemId] else ids, true)
  }

  /** Every envelope the import could make is storable. */
  ghost predicate MakesStorable(w: World, o: TransferObject, now: Time, relayId: Str)
  {
    ToMessage(w, o, now).Some? ==>
      var m := ToMessage(w, o, now).value;
      && |relayId| < U16 && Storable(EnvelopeFrom(m, relayId))
      && (StoredEnvelope(o, m, []).Some? ==> Storable(StoredEnvelope(o, m, []).value))
  }

  ghost predicate AllStorable(w: World, objects: seq<Indexed>, now: Time, relayId: Str)
  {
    forall i | 0 <= i < |objects| :: MakesStorable(w, objects[i].item, now, relayId)
  }

  lemma PutKeeps(t: Tables, e: Envelope, commit: bool)
    requires Agrees(t) && Storable(e) && Put(t, e, commit).Some?
    ensures Agrees(Put(t, e, commit).value) && View(Put(t, e, commit).value).Keys == View(t).Keys + {e.id}
  {
    hide Agrees; hide View; hide Persist; hide Storable; hide Valid;
    StorableExpiry(e);
    PersistKeepsAgreement(t, e, commit);
  }

  lemma EngineKeeps(t: Tables, m: Message, relayId: Str, commit: bool)
    requires Agrees(t) && EngineWrites(t, m, relayId, commit).Some?
    requires |relayId| < U16 && Storable(EnvelopeFrom(m, relayId))
    ensures var t' := EngineWrites(t, m, relayId, commit).value;
            Agrees(t') && View(t').Keys == View(t).Keys + {m.id}
  {
    hide Agrees; hide View; hide Put;
    var e := EnvelopeFor(if m.id in View(t) then Some(View(t)[m.id]) else None, m, relayId);
    ViewIds(t);
    if m.id in View(t) { StoredIsStorable(t, m.id); }
    PutKeeps(t, e, commit);
  }

  lemma StoredIsStorable(t: Tables, id: Str)
    requires Agrees(t) && id in View(t)
    ensures Storable(View(t)[id])
  {
    hide View; hide IsImage;
  }

  lemma ObjectKeeps(w: World, t: Tables, o: TransferObject, now: Time, relayId: Str, f: Imports)
    requires Agrees(t) && ToMessage(w, o, now).Some? && MakesStorable(w, o, now, relayId)
    ensures var (t', accepted) := ImportObject(w, t, o, now, relayId, f);
            && Agrees(t') && View(t).Keys <= View(t').Keys <= View(t).Keys + {o.itemId}
            && (accepted ==> o.itemId in View(t'))
  {
    hide Agrees; hide View; hide Put; hide ToMessage; hide EngineWrites; hide Storable; hide Base64Url.Decode;
    var m := ToMessage(w, o, now).value;
    MessageShape(w, o, now);
    var written := EngineWrites(t, m, relayId, f.engine(o.itemId));
    if written.Some? { EngineKeeps(t, m, relayId, f.engine(o.itemId)); }
    var t1 := if f.message(o.itemId) != Want.Known && written.Some? then written.value else t;
    var e := StoredEnvelope(o, m, []);
    if e.Some? && Put(t1, e.value, f.commit(o.itemId)).Some? { PutKeeps(t1, e.value, f.commit(o.itemId)); }
  }

  /** The accepted ids were sent, and each is accepted once. */
  lemma {:induction false} ImportedIds(w: World, t: Tables, objects: seq<Indexed>, now: Time, relayId: Str, f: Imports)
    ensures var ids := Import(w, t, objects, now, relayId, f).1;
            && |ids| <= |objects|
            && (forall x | x in ids :: exists k | 0 <= k < |objects| :: objects[k].item.itemId == x)
            && ((forall j, k | 0 <= j < k < |objects| :: objects[j].item.itemId != objects[k].item.itemId) ==>
                  Distinct(ids))
    decreases |objects|
  {
    hide ImportObject; hide ToMessage;
    if objects != [] {
      var rest, o := objects[..|objects| - 1], objects[|objects| - 1].item;
      ImportedIds(w, t, rest, now, relayId, f);
      assert forall k | 0 <= k < |rest| :: objects[k] == rest[k];
      OneMore(Import(w, t, rest, now, relayId, f).1, o.itemId);
      assert objects[|objects| - 1].item.itemId == o.itemId;
    }
  }

  /** The tables stay exact, hold every accepted id and grow by ids that were sent only. */
  lemma {:induction false} ImportKeeps(w: World, t: Tables, objects: seq<Indexed>, now: Time, relayId: Str, f: Imports)
    requires Agrees(t) && AllStorable(w, objects, now, relayId)
    ensures var (t', ids, _) := Import(w, t, objects, now, relayId, f);
            && Agrees(t') && View(t).Keys + Elements(ids) <= View(t').Keys
            && (forall x | x in View(t') && x !in View(t) ::
                  exists k | 0 <= k < |objects| :: objects[k].item.itemId == x)
    decreases |objects|
  {
    hide Agrees; hide View; hide ImportObject; hide ToMessage; hide MakesStorable;
    if objects != [] {
      var rest, o := objects[..|objects| - 1], objects[|objects| - 1].item;
      assert forall k | 0 <= k < |rest| :: objects[k] == rest[k];
      ImportKeeps(w, t, rest, now, relayId, f);
      var (t1, ids, _) := Import(w, t, rest, now, relayId, f);
      if ToMessage(w, o, now).Some? { ObjectKeeps(w, t1, o, now, relayId, f); }
      OneMore(ids, o.itemId);
      assert objects[|objects| - 1].item.itemId == o.itemId;
    }
  }

  lemma OneMore(ids: seq<Str>, id: Str)
    ensures Elements(ids + [id]) == Elements(ids) + {id}
    ensures Distinct(ids) && id !in ids ==> Distinct(ids + [id])
  {
  }

  method PutEnvelope(store: EnvelopeStore, e: Envelope, commit: bool) returns (ok: bool)
    modifies store
    ensures var put := Put(old(store.Abs()), e, commit);
            (ok <==> put.Some?) && store.Abs() == if ok then put.value else old(store.Abs())
  {
    hide Persist; hide PutsAccepted; hide Envelopes.Valid; hide Survives; hide Agrees;
    if !ValidTime(e.expires) { return false; }
    ok := store.PersistEnvelope(e, commit);
  }

  /** Stores the engine's envelope beside a new message. */
  method WriteEngine(store: EnvelopeStore, m: Message, relayId: Str, commit: bool) returns (ok: bool)
    modifies store
    ensures var written := EngineWrites(old(store.Abs()), m, relayId, commit);
            (ok <==> written.Some?) && store.Abs() == if ok then written.value else old(store.Abs())
  {
    hide View; hide Put;
    var known := store.GetEnvelopeById(m.id);
    ok := PutEnvelope(store, EnvelopeFor(known, m, relayId), commit);
  }

  /** One object of the loop whose message lookup works: stored or refused. */
  method ImportOne(w: World, store: EnvelopeStore, o: TransferObject, now: Time, relayId: Str, f: Imports)
    returns (accepted: bool)
    requires ToMessage(w, o, now).Some?
    modifies store
    ensures (store.Abs(), accepted) == ImportObject(w, old(store.Abs()), o, now, relayId, f)
  {
    hide ToMessage; hide EngineWrites; hide Put; hide StoredEnvelope;
    accepted := false;
    var m := ToMessage(w, o, now).value;
    if f.message(o.itemId) != Want.Known {
      if !f.persist(o.itemId) { return; }
      var written := WriteEngine(store, m, relayId, f.engine(o.itemId));
      if !written { return; }
    }
    var e := StoredEnvelope(o, m, []);
    if e.None? { return; }
    accepted := PutEnvelope(store, e.value, f.commit(o.itemId));
  }

  /** Stores what can be stored and answers with a receipt for it. */
  method HandleTransfer(
    session: ClientSession, objects: seq<Indexed>, now: Time, relayId: Str, f: Imports, queued: bool, clock: int)
    returns (reply: Reply)
    requires forall j, k | 0 <= j < k < |objects| :: objects[j].item.itemId != objects[k].item.itemId
    modifies session.store, session.drain
    ensures old(session.Valid()) && AllStorable(session.w, objects, now, relayId) ==> session.Valid()
    ensures var (t, ids, ok) := Import(session.w, old(session.store.Abs()), objects, now, relayId, f);
            var receipt := Enumerate(Elements(ids));
            var count := if ok then Some(|ids|) else None;
            var size := WireSize(session.w, ReceiptFrame(receipt));
            var (s, v) := UploadRound(old(session.drain.state), session.drain.limits, count, size, queued, clock);
            && session.store.Abs() == t
            && session.drain.state == s && reply == ReplyOf(v, SendReceipt(receipt))
            && (D.Unlimited(old(session.drain.state), session.drain.limits) && ok && queued && size.Some? ==>
                  reply == SendReceipt(receipt))
  {
    hide ToMessage; hide ImportObject; hide MakesStorable; hide SendFrame; hide WireSize; hide ReceiptPayload;
    hide SortIds; hide Enumerate;
    hide Agrees; hide View;
    hide D.Step;
    var accepted: seq<Str> := [];
    ghost var t0 := session.store.Abs();
    if session.Valid() && AllStorable(session.w, objects, now, relayId) {
      ImportKeeps(session.w, t0, objects, now, relayId, f);
    }
    for i := 0 to |objects|
      invariant session.drain.state == old(session.drain.state)
      invariant (session.store.Abs(), accepted, true) == Import(session.w, t0, objects[..i], now, relayId, f)
    {
      assert objects[..i + 1][..i] == objects[..i];
      var o := objects[i].item;
      if ToMessage(session.w, o, now).Some? {
        if f.message(o.itemId) == Want.Failed {
          FailedImport(session.w, t0, objects, i, now, relayId, f);
          return LookupError;
        }
        var taken := ImportOne(session.w, session.store, o, now, relayId, f);
        if taken { accepted := accepted + [o.itemId]; }
      }
    }
    assert objects[..|objects|] == objects;
    ImportedIds(session.w, t0, objects, now, relayId, f);
    SortIdsCorrect(accepted);
    ghost var size := WireSize(session.w, ReceiptFrame(SortIds(accepted)));
    if D.Unlimited(session.drain.state, session.drain.limits) && size.Some? {
      UnlimitedAnswers(session.drain.state, session.drain.limits, |accepted|, size, clock);
    }
    session.drain.RecordTransferredItems(|accepted|, clock);
    session.drain.Complete(|accepted| != 0, clock);
    var v := session.SendEnvelope(ReceiptFrame(SortIds(accepted)), queued, clock);
    return ReplyOf(v, SendReceipt(SortIds(accepted)));
  }

  /** A failed lookup ends the import where it happens. */
  lemma {:induction false} FailedImport(
    w: World, t: Tables, objects: seq<Indexed>, i: nat, now: Time, relayId: Str, f: Imports)
    requires i < |objects| && Import(w, t, objects[..i], now, relayId, f).2
    requires ToMessage(w, objects[i].item, now).Some? && f.message(objects[i].item.itemId) == Want.Failed
    ensures var (t1, ids, _) := Import(w, t, objects[..i], now, relayId, f);
            Import(w, t, objects, now, relayId, f) == (t1, ids, false)
    decreases |objects|
  {
    hide ToMessage; hide ImportObject;
    var n := |objects| - 1;
    if i == n {
      assert objects[..n] == objects[..i];
    } else {
      assert objects[..n][..i] == objects[..i];
      FailedImport(w, t, objects[..n], i, now, relayId, f);
    }
  }

  // ---- working stores take everything that passes and fits

  /** The calls for the object work. */
  predicate Works(f: Imports, id: Str) { f.message(id) != Want.Failed && f.persist(id) && f.engine(id) && f.commit(id) }

  /** The object passes validation and the store can hold its envelope, and the engine's if its
      message is new. */
  ghost predicate Welcome(w: World, view: map<Str, Envelope>, o: TransferObject, now: Time, relayId: Str, f: Imports)
  {
    && Passes(o, now) && ToMessage(w, o, now).Some?
    && var m := ToMessage(w, o, now).value;
       && (f.message(o.itemId) == Want.Unknown ==>
             CanHold(EnvelopeFor(if m.id in view then Some(view[m.id]) else None, m, relayId)))
       && StoredEnvelope(o, m, []).Some? && CanHold(StoredEnvelope(o, m, []).value)
  }

  ghost function WelcomeIds(
    w: World, view: map<Str, Envelope>, objects: seq<Indexed>, now: Time, relayId: Str, f: Imports): seq<Str>
    decreases |objects|
  {
    if objects == [] then []
    else
      var o := objects[|objects| - 1].item;
      WelcomeIds(w, view, objects[..|objects| - 1], now, relayId, f)
      + if Welcome(w, view, o, now, relayId, f) then [o.itemId] else []
  }

  lemma PutIff(t: Tables, e: Envelope)
    ensures Put(t, e, true).Some? <==> CanHold(e)
  {
    hide Valid; hide PutsAccepted; hide Decode;
  }

  lemma ObjectIff(w: World, t: Tables, o: TransferObject, now: Time, relayId: Str, f: Imports)
    requires Genuine(w, o) && ToMessage(w, o, now).Some? && Works(f, o.itemId)
    ensures ImportObject(w, t, o, now, relayId, f).1 <==> Welcome(w, View(t), o, now, relayId, f)
  {
    hide View; hide Put; hide ToMessage; hide Passes; hide CanHold; hide Genuine; hide StoredEnvelope;
    MessageIff(w, o, now);
    var m := ToMessage(w, o, now).value;
    PutIff(t, EnvelopeFor(if m.id in View(t) then Some(View(t)[m.id]) else None, m, relayId));
    var written := if f.message(o.itemId) == Want.Known then Some(t) else EngineWrites(t, m, relayId, true);
    if written.Some? && StoredEnvelope(o, m, []).Some? { PutIff(written.value, StoredEnvelope(o, m, []).value); }
  }

  /** An import touches the entries of the ids sent only. */
  lemma {:induction false} ImportIsLocal(
    w: World, t: Tables, objects: seq<Indexed>, now: Time, relayId: Str, f: Imports, x: Str)
    requires Agrees(t) && AllStorable(w, objects, now, relayId)
    requires forall k | 0 <= k < |objects| :: objects[k].item.itemId != x
    ensures var t' := Import(w, t, objects, now, relayId, f).0;
            (x in View(t') <==> x in View(t)) && (x in View(t) ==> View(t')[x] == View(t)[x])
    decreases |objects|
  {
    hide Agrees; hide View; hide ImportObject; hide ToMessage; hide MakesStorable;
    if objects != [] {
      var rest, o := objects[..|objects| - 1], objects[|objects| - 1].item;
      assert forall k | 0 <= k < |rest| :: objects[k] == rest[k];
      ImportIsLocal(w, t, rest, now, relayId, f, x);
      ImportKeeps(w, t, rest, now, relayId, f);
      var t1 := Import(w, t, rest, now, relayId, f).0;
      assert MakesStorable(w, o, now, relayId) && o.itemId != x;
      if ToMessage(w, o, now).Some? { ObjectIsLocal(w, t1, o, now, relayId, f, x); }
    }
  }

  lemma ObjectIsLocal(w: World, t: Tables, o: TransferObject, now: Time, relayId: Str, f: Imports, x: Str)
    requires Agrees(t) && ToMessage(w, o, now).Some? && MakesStorable(w, o, now, relayId) && x != o.itemId
    ensures var t' := ImportObject(w, t, o, now, relayId, f).0;
            (x in View(t') <==> x in View(t)) && (x in View(t) ==> View(t')[x] == View(t)[x])
  {
    hide Agrees; hide View; hide Put; hide ToMessage; hide Storable; hide Base64Url.Decode;
    var m := ToMessage(w, o, now).value;
    MessageShape(w, o, now);
    var e := EnvelopeFor(if m.id in View(t) then Some(View(t)[m.id]) else None, m, relayId);
    ViewIds(t);
    var written := Put(t, e, f.engine(o.itemId));
    if written.Some? {
      EngineKeeps(t, m, relayId, f.engine(o.itemId));
      EngineStorable(t, m, relayId);
      PutSets(t, e, f.engine(o.itemId));
    }
    var t1 := if f.message(o.itemId) != Want.Known && written.Some? then written.value else t;
    var stored := StoredEnvelope(o, m, []);
    if stored.Some? && Put(t1, stored.value, f.commit(o.itemId)).Some? {
      PutSets(t1, stored.value, f.commit(o.itemId));
    }
  }

  lemma EngineStorable(t: Tables, m: Message, relayId: Str)
    requires Agrees(t) && |relayId| < U16 && Storable(EnvelopeFrom(m, relayId))
    ensures Storable(EnvelopeFor(if m.id in View(t) then Some(View(t)[m.id]) else None, m, relayId))
  {
    hide Agrees; hide View;
    if m.id in View(t) { StoredIsStorable(t, m.id); }
  }

  lemma PutSets(t: Tables, e: Envelope, commit: bool)
    requires Agrees(t) && Storable(e) && Put(t, e, commit).Some?
    ensures View(Put(t, e, commit).value) == View(t)[e.id := e]
  {
    hide Agrees; hide View; hide Persist; hide Storable; hide Valid;
    StorableExpiry(e);
    PersistKeepsAgreement(t, e, commit);
  }

  /** With working stores a client's genuine objects are accepted exactly when they pass validation
      and the store can hold them, in order. */
  lemma {:induction false} WorkingImportTakes(
    w: World, t: Tables, objects: seq<Indexed>, now: Time, relayId: Str, f: Imports)
    requires Agrees(t) && AllStorable(w, objects, now, relayId)
    requires forall i | 0 <= i < |objects| :: Genuine(w, objects[i].item) && Works(f, objects[i].item.itemId)
    requires forall j, k | 0 <= j < k < |objects| :: objects[j].item.itemId != objects[k].item.itemId
    ensures var (_, ids, ok) := Import(w, t, objects, now, relayId, f);
            ok && ids == WelcomeIds(w, View(t), objects, now, relayId, f)
    decreases |objects|
  {
    hide Agrees; hide View; hide ImportObject; hide ToMessage; hide MakesStorable; hide Genuine; hide Welcome;
    if objects != [] {
      var n := |objects| - 1;
      var rest, o := objects[..n], objects[n].item;
      assert forall k | 0 <= k < |rest| :: objects[k] == rest[k];
      WorkingImportTakes(w, t, rest, now, relayId, f);
      ImportIsLocal(w, t, rest, now, relayId, f, o.itemId);
      var t1 := Import(w, t, rest, now, relayId, f).0;
      WelcomeLooks(w, View(t), View(t1), o, now, relayId, f);
      assert Genuine(w, o) && Works(f, o.itemId);
      if ToMessage(w, o, now).Some? { ObjectIff(w, t1, o, now, relayId, f); }
    }
  }

  // ---- what is accepted is served

  /** The entry of an accepted object is its transferred envelope. */
  lemma ObjectStores(w: World, t: Tables, o: TransferObject, now: Time, relayId: Str, f: Imports)
    requires Agrees(t) && ToMessage(w, o, now).Some? && MakesStorable(w, o, now, relayId)
    requires ImportObject(w, t, o, now, relayId, f).1
    ensures Stored(w, View(ImportObject(w, t, o, now, relayId, f).0), o, now)
  {
    hide Agrees; hide View; hide Put; hide ToMessage; hide Storable; hide Base64Url.Decode; hide EngineWrites;
    var m := ToMessage(w, o, now).value;
    MessageShape(w, o, now);
    var t1 := if f.message(o.itemId) == Want.Known then t else EngineWrites(t, m, relayId, f.engine(o.itemId)).value;
    if f.message(o.itemId) != Want.Known { EngineKeeps(t, m, relayId, f.engine(o.itemId)); }
    PutSets(t1, StoredEnvelope(o, m, []).value, f.commit(o.itemId));
  }

  ghost predicate Stored(w: World, view: map<Str, Envelope>, o: TransferObject, now: Time)
  {
    && o.itemId in view && ToMessage(w, o, now).Some?
    && StoredEnvelope(o, ToMessage(w, o, now).value, []) == Some(view[o.itemId]) && Storable(view[o.itemId])
  }

  lemma {:induction false} ImportStores(
    w: World, t: Tables, objects: seq<Indexed>, now: Time, relayId: Str, f: Imports, k: nat)
    requires Agrees(t) && AllStorable(w, objects, now, relayId) && k < |objects|
    requires forall i, j | 0 <= i < j < |objects| :: objects[i].item.itemId != objects[j].item.itemId
    ensures var (t', ids, _) := Import(w, t, objects, now, relayId, f);
            objects[k].item.itemId in ids ==> Stored(w, View(t'), objects[k].item, now)
    decreases |objects|
  {
    hide Agrees; hide View; hide ImportObject; hide ToMessage; hide MakesStorable; hide StoredEnvelope; hide Storable;
    var n := |objects| - 1;
    var rest, o, x := objects[..n], objects[n].item, objects[k].item.itemId;
    assert forall i | 0 <= i < |rest| :: objects[i] == rest[i];
    ImportKeeps(w, t, rest, now, relayId, f);
    ImportedIds(w, t, rest, now, relayId, f);
    var (t1, ids, _) := Import(w, t, rest, now, relayId, f);
    assert MakesStorable(w, o, now, relayId);
    if k == n {
      assert x !in ids;
      if ToMessage(w, o, now).Some? && ImportObject(w, t1, o, now, relayId, f).1 {
        ObjectStores(w, t1, o, now, relayId, f);
      }
    } else {
      ImportStores(w, t, rest, now, relayId, f, k);
      if ToMessage(w, o, now).Some? { ObjectIsLocal(w, t1, o, now, relayId, f, x); }
    }
  }

  /** Every acknowledged upload is served from then on as the same item. */
  lemma UploadIsServed(w: World, t: Tables, objects: seq<Indexed>, now: Time, relayId: Str, f: Imports, k: nat)
    requires Agrees(t) && AllStorable(w, objects, now, relayId) && k < |objects|
    requires forall i, j | 0 <= i < j < |objects| :: objects[i].item.itemId != objects[j].item.itemId
    requires Genuine(w, objects[k].item) && objects[k].item.expiryMs < U64
    requires objects[k].item.itemId in Import(w, t, objects, now, relayId, f).1
    ensures var l := Load(w, View(Import(w, t, objects, now, relayId, f).0), objects[k].item.itemId);
            l.Found? && SameItem(objects[k].item, l.item) && Genuine(w, l.item)
  {
    hide Agrees; hide View; hide Import; hide ToMessage; hide MakesStorable; hide Genuine; hide Load; hide SameItem;
    hide Storable; hide Base64Url.Decode;
    var o, view := objects[k].item, View(Import(w, t, objects, now, relayId, f).0);
    ImportStores(w, t, objects, now, relayId, f, k);
    StorableExpiry(view[o.itemId]);
    ExpirySurvives(w, o, now);
    LoadedAgain(w, view, o);
  }

  lemma WelcomeLooks(
    w: World, v: map<Str, Envelope>, v': map<Str, Envelope>, o: TransferObject, now: Time, relayId: Str, f: Imports)
    requires (o.itemId in v <==> o.itemId in v') && (o.itemId in v ==> v[o.itemId] == v'[o.itemId])
    ensures Welcome(w, v, o, now, relayId, f) <==> Welcome(w, v', o, now, relayId, f)
    ensures Welcome(w, v, o, now, relayId, f) ==> ToMessage(w, o, now).Some?
  {
    hide ToMessage; hide Passes; hide CanHold; hide StoredEnvelope;
    if ToMessage(w, o, now).Some? { MessageShape(w, o, now); }
  }
}
