/** The drain over a store that was filled by accepting objects, with objects loaded from that very
    store: when it delivers everything, and a store on which it does not. */
module DrainDelivery {
  import opened ByteStrings
  import opened GossipLimits
  import opened Ordered
  import opened Digest
  import opened Rfc3339
  import opened Envelopes
  import opened EnvelopeTables
  import opened EnvelopeStores
  import opened Paging
  import opened Acks
  import opened Bloom
  import opened Protocol
  import opened Transfer
  import opened DrainLoop
  import opened DrainConvergence
  import opened RelayObject
  import opened Ingest
  import Base64Url

  /** Objects are loaded as `loadTransferObjectByItemID` does, from the queue's own store. */
  ghost predicate LoadsFrom(w: World, q: Queue)
  {
    HoldsServable(w, q.view) && forall id :: q.load(id) == Load(w, q.view, id)
  }

  lemma ServableFromStore(w: World, q: Queue, asked: Time, id: Str)
    requires LoadsFrom(w, q)
    ensures ServableAt(q, asked, id) <==>
              id in q.view && q.view[id].destination == q.recipient && asked < q.view[id].expires
  {
    hide HoldsServable; hide Load;
    ServableIff(w, q.view, id, q.recipient, asked);
    assert q.load(id) == Load(w, q.view, id);
  }

  lemma PendingEntry(q: Queue, p: Progress, now: Time, x: Str)
    requires x in Pending(q, p, now)
    ensures x in q.view && q.view[x].destination == q.recipient && now <= q.view[x].expires
  {
    hide Unacked; hide AckKey; hide IsDigest; hide Compare;
    UnackedIsIdList(q.view, p.acks, q.recipient, q.identity, now);
  }

  /** A round stalls exactly when everything previewed has expired by the time it is requested. */
  lemma StallIffExpired(w: World, q: Queue, p: Progress, now: Time, asked: Time)
    requires LoadsFrom(w, q)
    ensures Stalls(q, p, now, asked) <==>
              && Pending(q, p, now) != []
              && forall x | x in Previewed(q, p, now) :: x in q.view && q.view[x].expires <= asked
  {
    hide LoadsFrom; hide ServableAt; hide Pending; hide Previewed; hide IdList; hide AllDigests;
    PreviewedIds(q, p, now);
    forall x | x in Previewed(q, p, now)
      ensures x in q.view && (ServableAt(q, asked, x) <==> asked < q.view[x].expires) {
      PendingEntry(q, p, now, x);
      ServableFromStore(w, q, asked, x);
    }
  }

  lemma StaysFromStore(w: World, q: Queue, ids: seq<Str>, now: Time, asked: Time)
    requires LoadsFrom(w, q)
    requires forall x | x in ids && x in q.view && now <= q.view[x].expires :: asked < q.view[x].expires
    ensures StaysServable(q, ids, now, asked)
  {
    hide LoadsFrom; hide ServableAt; hide IsDigest;
    forall x | x in ids && x in EligibleFor(q.view, q.recipient, now) ensures ServableAt(q, asked, x) {
      ServableFromStore(w, q, asked, x);
    }
  }

  lemma LoadsSoundly(w: World, view: map<Str, Envelope>, id: Str)
    requires HoldsServable(w, view)
    ensures var l := Load(w, view, id); l != LoadFailed && (l.Found? ==> l.item.itemId == id)
  {
    hide HoldsGenuine; hide IsDigest; hide Base64Url.Encode; hide DecodeRaw; hide ItemIdOf;
    LoadedIsGenuine(w, view, id);
  }

  /** None of the items expires between a summary and the request for it. */
  ghost predicate NoneExpiresBetween(view: map<Str, Envelope>, ids: seq<Str>, at: nat -> Time, asked: nat -> Time)
  {
    forall i: nat, x | x in ids && x in view && at(i) <= view[x].expires :: asked(i) < view[x].expires
  }

  /** What left the pending list was acknowledged or has expired. */
  lemma NotPendingMeans(q: Queue, p: Progress, p': Progress, now: Time, later: Time, x: Str)
    requires q.identity != [] && x in Pending(q, p, now) && x !in Pending(q, p', later)
    ensures x in q.view && (AckKey(x, q.identity) in p'.acks || q.view[x].expires < later)
  {
    hide Unacked; hide AckKey; hide IsDigest; hide Compare;
    UnackedIsIdList(q.view, p.acks, q.recipient, q.identity, now);
    UnackedIsIdList(q.view, p'.acks, q.recipient, q.identity, later);
  }

  /** The whole drain of a recipient over the store itself. It ends within as many rounds as items
      were pending; it leaves nothing pending if none of those items expires between a summary
      and the request for it; if it does not finish, everything last previewed had expired when
      requested; and when it finishes every item was acknowledged or has expired. */
  method DrainStore(
    session: ClientSession, view: map<Str, Envelope>, at: nat -> Time, asked: nat -> Time, clock: int)
    returns (rounds: nat, last: Summary)
    requires Ready(session) && view == session.store.Contents() && HoldsServable(session.w, view)
    requires FramesFit(session.w, id => Load(session.w, view, id), session.Pending(at(0)))
    requires forall i: nat :: at(i) <= asked(i) <= at(i + 1)
    modifies session, session.acks, session.drain, session.adapter
    ensures rounds <= |old(session.Pending(at(0)))|
    ensures NoneExpiresBetween(view, old(session.Pending(at(0))), at, asked) ==> last.itemCount == 0
    ensures last.itemCount > 0 ==>
              last.preview != [] && forall x | x in last.preview :: x in view && view[x].expires <= asked(rounds)
    ensures last.itemCount == 0 ==>
              forall x | x in old(session.Pending(at(0))) ::
                x in view && (AckKey(x, session.identity) in session.acks.acks || view[x].expires < at(rounds))
  {
    hide HoldsServable; hide Load; hide Unacked; hide AckKey; hide IsDigest; hide Servable; hide FramesFit; hide KeysOf;
    hide EligibleFor; hide Compare; hide ClientSession.Valid; hide StaysServable; hide NoneExpiresBetween;
    var load := id => Load(session.w, view, id);
    ghost var pending, q := session.Pending(at(0)), QueueOf(session, load);
    ghost var p := Progress(session.acks.acks, session.cursor);
    SameFrames(session.w, load, view, pending);
    forall x | x in pending ensures load(x) != LoadFailed && (load(x).Found? ==> load(x).item.itemId == x) {
      LoadsSoundly(session.w, view, x);
    }
    if NoneExpiresBetween(view, pending, at, asked) {
      forall i: nat ensures StaysServable(q, pending, at(i), asked(i)) {
        StaysWhile(session.w, q, pending, at, asked, i);
      }
    }
    rounds, last := DrainAll(session, load, at, asked, clock);
    ghost var p' := Progress(session.acks.acks, session.cursor);
    forall x | last.itemCount > 0 && x in last.preview ensures x in view && view[x].expires <= asked(rounds) {
      PendingEntry(q, p', at(rounds), x);
      ServableFromStore(session.w, q, asked(rounds), x);
    }
    if last.itemCount == 0 {
      forall x | x in pending ensures x in view && (AckKey(x, q.identity) in p'.acks || view[x].expires < at(rounds)) {
        NotPendingMeans(q, p, p', at(0), at(rounds), x);
      }
    }
  }

  lemma StaysWhile(w: World, q: Queue, ids: seq<Str>, at: nat -> Time, asked: nat -> Time, i: nat)
    requires LoadsFrom(w, q) && NoneExpiresBetween(q.view, ids, at, asked)
    ensures StaysServable(q, ids, at(i), asked(i))
  {
    hide LoadsFrom; hide StaysServable;
    StaysFromStore(w, q, ids, at(i), asked(i));
  }

  lemma SameFrames(w: World, load: Str -> Loaded, view: map<Str, Envelope>, ids: seq<Str>)
    requires FramesFit(w, id => Load(w, view, id), ids) && forall id :: load(id) == Load(w, view, id)
    ensures FramesFit(w, load, ids)
  {
    hide SummaryOver; hide WireSize; hide Load;
    forall items | TransferOver(items, load, ids) ensures WireSize(w, TransferFrame(items)).Some? {
      assert TransferOver(items, id => Load(w, view, id), ids);
    }
  }

  // ---- a store on which a drain stalls

  const TO: Str := [98]
  const DEVICE: Str := [98, 0, 49]
  function Zeros(): Str { seq(31, _ => 0) }

  /** A hash that tells the stored payloads apart. */
  function Sha(b: Str): Digest32 { if |b| == 2 && b[0] == 1 then Zeros() + [b[1]] else Zeros() + [255] }

  function Content(): ItemEnvelope { ItemEnvelope([97], TO, Base64Url.Encode([1]), 0, 0) }

  function StallWorld(): World { World(Sha, _ => None, _ => [], _ => true, _ => Some(Content())) }

  /** The i-th payload, its id and its object: sixty-four live for a second, one for ten. */
  function NthPayload(i: nat): Str
    requires i < 65
  {
    [1, i]
  }

  function NthId(i: nat): Str
    requires i < 65
  {
    HexEncode(Zeros() + [i])
  }

  function NthLife(i: nat): nat { if i == 64 then 10_000 else 1_000 }

  function NthObject(i: nat): TransferObject
    requires i < 65
  {
    TransferObject(NthId(i), Base64Url.Encode(NthPayload(i)), NthLife(i), 0, Content())
  }

  lemma NthIdOrder(i: nat, j: nat)
    requires i < j < 65
    ensures IsDigest(NthId(i)) && IsDigest(NthId(j)) && Less(NthId(i), NthId(j)) && NthId(i) != NthId(j)
  {
    hide HexEncode; hide DigestBytes;
    DigestBijection(Zeros() + [i], NthId(i));
    DigestBijection(Zeros() + [j], NthId(j));
    DigestOrderIsTextOrder(NthId(i), NthId(j));
    CompareCommonPrefix(Zeros(), [i], [j]);
    CompareZero(NthId(i), NthId(j));
  }

  lemma NthIsDigest(i: nat)
    requires i < 65
    ensures IsDigest(NthId(i))
  {
    if i < 64 { NthIdOrder(i, i + 1); } else { NthIdOrder(0, i); }
  }

  lemma NthIsGenuine(i: nat)
    requires i < 65
    ensures Genuine(StallWorld(), NthObject(i)) && DecodeRaw(NthObject(i).envelopeB64) == Some(NthPayload(i))
  {
    hide HexEncode; hide DigestBytes; hide DecodeRaw; hide Base64Url.Encode;
    NthIsDigest(i);
    CanonicalText(NthPayload(i));
  }

  lemma ContentDecodes()
    ensures DecodePayloadB64(Content().payloadB64).Some?
  {
    hide DecodePayloadB64; hide Base64Url.Encode;
    PayloadTextMeans([], [1]);
  }

  /** What is stored for the i-th object. */
  function NthEnvelope(i: nat): Envelope
    requires i < 65
  {
    Envelope(NthId(i), TO, NthPayload(i), [], 0, 0, NthLife(i) * MILLISECOND)
  }

  lemma NthIsKept(i: nat, t: Tables)
    requires i < 65 && Agrees(t)
    ensures var w, o := StallWorld(), NthObject(i);
            && Keep(w, t, o, 0, []).Some? && Agrees(Keep(w, t, o, 0, []).value)
            && View(Keep(w, t, o, 0, []).value) == View(t)[NthId(i) := NthEnvelope(i)]
  {
    hide Agrees; hide View; hide Keep; hide HexEncode; hide DigestBytes; hide Base64Url.Encode;
    hide Base64Url.Decode; hide DecodeRaw;
    hide DecodePayloadB64;
    var w, o := StallWorld(), NthObject(i);
    NthIsGenuine(i);
    ContentDecodes();
    assert ToMessage(w, o, 0) == Some(Message(NthId(i), [97], TO, Content().payloadB64, 0, NthLife(i) * MILLISECOND));
    RawIsStrict(o.envelopeB64);
    assert StoredEnvelope(o, ToMessage(w, o, 0).value, []) == Some(NthEnvelope(i));
    NthIsStorable(i);
    SmallObjectsAreKept(w, t, o, 0, []);
    KeepWrites(w, t, o, 0, []);
  }

  lemma NthIsStorable(i: nat)
    requires i < 65
    ensures Storable(NthEnvelope(i))
  {
    hide HexEncode;
    assert |NthId(i)| == 64;
  }

  /** The first `n` objects accepted one after the other, in an empty store. */
  function Arrivals(n: nat): seq<Accepted>
    requires n <= 65
  {
    if n == 0 then [] else Arrivals(n - 1) + [RelayObject.Accepted(NthObject(n - 1), 0, [])]
  }

  ghost function StallTables(): Tables { Fill(StallWorld(), EMPTY, Arrivals(65)) }

  lemma {:induction false} FillOneMore(w: World, t: Tables, objects: seq<Accepted>, a: Accepted)
    ensures var before := Fill(w, t, objects);
            var kept := Keep(w, before, a.item, a.now, a.origin);
            Fill(w, t, objects + [a]) == if kept.Some? then kept.value else before
    decreases |objects|
  {
    hide Keep;
    if objects == [] {
      assert objects + [a] == [a] && [a][1..] == [];
    } else {
      assert (objects + [a])[1..] == objects[1..] + [a];
      var kept := Keep(w, t, objects[0].item, objects[0].now, objects[0].origin);
      FillOneMore(w, if kept.Some? then kept.value else t, objects[1..], a);
    }
  }

  /** The store after `n` arrivals holds exactly those. */
  lemma {:induction false} ArrivalsStored(n: nat)
    requires n <= 65
    ensures var t := Fill(StallWorld(), EMPTY, Arrivals(n));
            && Agrees(t)
            && (forall x :: x in View(t) <==> exists i: nat | i < n :: x == NthId(i))
            && (forall i: nat | i < n :: View(t)[NthId(i)] == NthEnvelope(i))
    decreases n
  {
    hide Agrees; hide View; hide Keep; hide NthId; hide NthObject; hide Fill;
    var w := StallWorld();
    if n == 0 {
      EmptyStore(w);
    } else {
      ArrivalsStored(n - 1);
      var a, t := RelayObject.Accepted(NthObject(n - 1), 0, []), Fill(w, EMPTY, Arrivals(n - 1));
      FillOneMore(w, EMPTY, Arrivals(n - 1), a);
      NthIsKept(n - 1, t);
      forall i: nat | i < n - 1 ensures NthId(i) != NthId(n - 1) { NthIdOrder(i, n - 1); }
    }
  }

  lemma EmptyStore(w: World)
    ensures Fill(w, EMPTY, []) == EMPTY && Agrees(EMPTY) && View(EMPTY) == map[]
  {
    NothingIsServable(w);
  }

  lemma {:induction false} ArrivalsGenuine(n: nat)
    requires n <= 65
    ensures forall i | 0 <= i < |Arrivals(n)| ::
              Genuine(StallWorld(), Arrivals(n)[i].item) && 0 < Arrivals(n)[i].item.expiryMs <= INT64_MAX
    decreases n
  {
    hide Genuine;
    if n > 0 {
      ArrivalsGenuine(n - 1);
      NthIsGenuine(n - 1);
    }
  }

  function StallIds(): seq<Str> { seq(65, i requires 0 <= i < 65 => NthId(i)) }

  lemma StallIdsSorted()
    ensures SortedDigests(StallIds())
  {
    hide NthId; hide IsDigest; hide Compare;
    forall i, j | 0 <= i < j < 65 ensures Less(StallIds()[i], StallIds()[j]) { NthIdOrder(i, j); }
    forall i | 0 <= i < 65 ensures IsDigest(StallIds()[i]) { NthIsDigest(i); }
  }

  function StallQueue(view: map<Str, Envelope>): Queue { Queue(view, TO, DEVICE, id => Load(StallWorld(), view, id)) }

  /** The entries of that store, by position. */
  lemma StallEntry(i: nat)
    requires i < 65
    ensures var view := View(StallTables());
            NthId(i) in view && view[NthId(i)] == NthEnvelope(i) && IsDigest(NthId(i)) && NthId(i) in StallIds()
  {
    hide NthId; hide IsDigest; hide View; hide Fill; hide Arrivals;
    ArrivalsStored(65);
    NthIsDigest(i);
    assert StallIds()[i] == NthId(i);
  }

  /** Positions in the list, and of stored ids. */
  lemma ListedAt(x: Str, n: nat) returns (i: nat)
    requires n <= 65 && |StallIds()| == 65 && x in StallIds()[..n]
    ensures i < n && x == NthId(i)
  {
    hide NthId;
    var k :| 0 <= k < n && StallIds()[..n][k] == x;
    i := k;
  }

  lemma StoredAt(x: Str) returns (i: nat)
    requires x in View(StallTables())
    ensures i < 65 && x == NthId(i)
  {
    hide NthId; hide View; hide Fill; hide Arrivals; hide StallIds; hide NthEnvelope;
    ArrivalsStored(65);
    i :| i < 65 && x == NthId(i);
  }

  lemma StallCount()
    ensures |StallIds()| == 65
  {
  }

  lemma StallEligible(view: map<Str, Envelope>, now: Time, x: Str)
    requires view == View(StallTables()) && 0 <= now <= 10 * SECOND
    ensures now <= SECOND ==> (x in EligibleFor(view, TO, now) <==> x in StallIds())
    ensures x == NthId(64) ==> x in EligibleFor(view, TO, now)
  {
    hide NthId; hide IsDigest; hide View; hide StallTables; hide StallIds;
    StallEntry(64);
    if x in view {
      var i := StoredAt(x);
      StallEntry(i);
    } else if x in StallIds() {
      StallCount();
      assert StallIds()[..65] == StallIds();
      var i := ListedAt(x, 65);
      StallEntry(i);
    }
  }

  /** The stall happens. Sixty-five objects are accepted into an empty store. The summary of time 0
      previews the first sixty-four; when the request for them is handled two seconds later all
      of them have expired, so nothing is servable, nothing is sent and no further summary is
      due, although the last item is still pending and servable. */
  lemma StallLosesAnItem(q: Queue)
    requires q == StallQueue(View(StallTables()))
    ensures var p, asked := Progress({}, []), 2 * SECOND;
            && LoadsFrom(StallWorld(), q)
            && Pending(q, p, 0) == StallIds() && Previewed(q, p, 0) == StallIds()[..64]
            && !(exists x | x in Previewed(q, p, 0) :: Servable(q.load, q.recipient, asked / MILLISECOND, x))
            && Stalls(q, p, 0, asked)
            && NthId(64) in Pending(q, p, asked) && ServableAt(q, asked, NthId(64))
  {
    hide NthId; hide IsDigest; hide View; hide Fill; hide Arrivals; hide Unacked; hide EligibleFor; hide AckKey;
    hide Compare;
    hide HoldsServable; hide Load; hide ServableAt; hide StallIds;
    var w, p, asked := StallWorld(), Progress({}, []), 2 * SECOND;
    NothingIsServable(w);
    ArrivalsGenuine(65);
    FilledStoreIsServable(w, EMPTY, Arrivals(65));
    StallPending(q);
    StallIffExpired(w, q, p, 0, asked);
    PreviewExpired(q.view);
    StallMeans(q, p, 0, asked);
    LastIsServable(w, q, asked);
    UnackedIsIdList(q.view, {}, TO, DEVICE, asked);
    StallEligible(q.view, asked, NthId(64));
  }

  lemma StallPending(q: Queue)
    requires q == StallQueue(View(StallTables()))
    ensures Pending(q, Progress({}, []), 0) == StallIds() && |StallIds()| == 65
    ensures Previewed(q, Progress({}, []), 0) == StallIds()[..64]
  {
    hide NthId; hide IsDigest; hide View; hide Fill; hide Arrivals; hide Unacked; hide EligibleFor; hide AckKey;
    hide Compare;
    var pending, ids := Pending(q, Progress({}, []), 0), StallIds();
    StallIdsSorted();
    UnackedIsIdList(q.view, {}, TO, DEVICE, 0);
    forall x ensures x in pending <==> x in ids { StallEligible(q.view, 0, x); }
    assert Elements(pending) == Elements(ids);
    SortedUnique(pending, ids);
  }

  lemma PreviewExpired(view: map<Str, Envelope>)
    requires view == View(StallTables())
    ensures |StallIds()| == 65 && forall x | x in StallIds()[..64] :: x in view && view[x].expires <= 2 * SECOND
  {
    hide NthId; hide View; hide StallTables; hide StallIds; hide IsDigest;
    StallCount();
    forall x | x in StallIds()[..64] ensures x in view && view[x].expires <= 2 * SECOND {
      var i := ListedAt(x, 64);
      StallEntry(i);
    }
  }

  lemma LastIsServable(w: World, q: Queue, asked: Time)
    requires w == StallWorld() && q == StallQueue(View(StallTables())) && LoadsFrom(w, q) && asked == 2 * SECOND
    ensures ServableAt(q, asked, NthId(64))
  {
    hide NthId; hide View; hide StallTables; hide StallIds; hide IsDigest; hide LoadsFrom; hide ServableAt;
    StallEntry(64);
    ServableFromStore(w, q, asked, NthId(64));
  }
}
