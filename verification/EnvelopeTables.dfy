/** The envelope database: one primary table and three derived indexes
    (internal/store/envelope_store.go). A bucket is a map; an update transaction either
    commits all its puts and deletes or leaves every table as it was. */
module EnvelopeTables {
  import opened ByteStrings
  import opened Ordered
  import opened Digest
  import opened Rfc3339
  import opened Envelopes

  datatype Tables = Tables(
    envelopes: map<Str, Str>,       // id -> encoded envelope
    byDestination: map<Str, Str>,   // destination || 0 || id -> id
    byExpiry: map<Str, Str>,        // RFC3339Nano(expires) || 0 || id -> id
    expiry: map<Str, Str>)          // id -> expiry in nanoseconds, 8 bytes

  const EMPTY := Tables(map[], map[], map[], map[])

  /** Limits on what bbolt's `Put` takes. */
  predicate PutAccepted(key: Str, value: Str) { 0 < |key| <= 32768 && |value| <= 0x7fff_fffe }

  predicate PutsAccepted(e: Envelope)
    requires ValidTime(e.expires)
  {
    && PutAccepted(e.id, Encode(e))
    && PutAccepted(DestinationKey(e.destination, e.id), e.id)
    && PutAccepted(ExpiryKey(e.expires, e.id), e.id)
    && PutAccepted(e.id, PutInt64(e.expires))
  }

  // ---- transactions

  function DropStale(index: map<Str, Str>, stale: Str, key: Str): map<Str, Str>
  {
    if stale != key then index - {stale} else index
  }

  /** Stale index keys go before validation; a refused or failed transaction rolls back. */
  function Persist(t: Tables, e: Envelope, commit: bool): (Tables, bool)
    requires ValidTime(e.expires)
  {
    var prior := if e.id in t.envelopes then Decode(t.envelopes[e.id]) else Err(InvalidId);
    if prior.Ok? then DecodedInRange(t.envelopes[e.id]); PersistOver(t, prior, e, commit)
    else PersistOver(t, prior, e, commit)
  }

  function PersistOver(t: Tables, prior: Decoded, e: Envelope, commit: bool): (Tables, bool)
    requires ValidTime(e.expires) && (prior.Ok? ==> ValidTime(prior.envelope.expires))
  {
    var dk, xk := DestinationKey(e.destination, e.id), ExpiryKey(e.expires, e.id);
    var byDestination := if prior.Ok?
                         then DropStale(t.byDestination, DestinationKey(prior.envelope.destination, e.id), dk)
                         else t.byDestination;
    var byExpiry := if prior.Ok? then DropStale(t.byExpiry, ExpiryKey(prior.envelope.expires, e.id), xk)
                    else t.byExpiry;
    if Valid(e) && PutsAccepted(e) && commit then
      (Tables(t.envelopes[e.id := Encode(e)], byDestination[dk := e.id], byExpiry[xk := e.id],
              t.expiry[e.id := PutInt64(e.expires)]), true)
    else (t, false)
  }

  function Remove(t: Tables, id: Str, commit: bool): Tables
  {
    if !commit then t else
    var prior := if id in t.envelopes then Decode(t.envelopes[id]) else Err(InvalidId);
    if prior.Ok? then
      DecodedInRange(t.envelopes[id]);
      Tables(t.envelopes - {id}, t.byDestination - {DestinationKey(prior.envelope.destination, id)},
             t.byExpiry - {ExpiryKey(prior.envelope.expires, id)}, t.expiry - {id})
    else t.(envelopes := t.envelopes - {id}, expiry := t.expiry - {id})
  }

  /** Opening the database fills in missing expiry entries. */
  function Backfill(t: Tables): Tables
  {
    t.(expiry := t.expiry + map id | id in t.envelopes && id !in t.expiry && Decode(t.envelopes[id]).Ok?
                              :: PutInt64(Decode(t.envelopes[id]).envelope.expires))
  }

  // ---- what the tables mean

  /** The primary table, decoded. */
  ghost function View(t: Tables): map<Str, Envelope>
  {
    map id | id in t.envelopes && Decode(t.envelopes[id]).Ok? :: Decode(t.envelopes[id]).envelope
  }

  /** The envelopes the store is meant for: they fit the codec and their destination has no NUL. */
  predicate Storable(e: Envelope) { InCodecRange(e) && NulFree(e.destination) }

  ghost predicate WellFormed(view: map<Str, Envelope>)
  {
    forall id | id in view :: view[id].id == id && Storable(view[id])
  }

  ghost function DestinationKeyOf(e: Envelope): Str { DestinationKey(e.destination, e.id) }

  ghost function ExpiryKeyOf(e: Envelope): Str
  {
    if ValidTime(e.expires) then ExpiryKey(e.expires, e.id) else []
  }

  /** An index is exactly the image of the primary table: no missing and no dangling entry. */
  ghost predicate IsImage(index: map<Str, Str>, view: map<Str, Envelope>, key: Envelope -> Str)
  {
    && (forall k | k in index :: index[k] in view && key(view[index[k]]) == k)
    && (forall id | id in view :: key(view[id]) in index && index[key(view[id])] == id)
  }

  ghost predicate KeySeparates(key: Envelope -> Str)
  {
    forall d, e | Storable(d) && Storable(e) && key(d) == key(e) :: d.id == e.id
  }

  ghost function ExpiryTable(view: map<Str, Envelope>): map<Str, Str>
  {
    map id | id in view :: PutInt64(view[id].expires)
  }

  ghost predicate IndexesAgree(t: Tables, view: map<Str, Envelope>)
  {
    && WellFormed(view)
    && IsImage(t.byDestination, view, DestinationKeyOf)
    && IsImage(t.byExpiry, view, ExpiryKeyOf)
  }

  ghost predicate Agrees(t: Tables)
  {
    && View(t).Keys == t.envelopes.Keys
    && IndexesAgree(t, View(t))
    && t.expiry == ExpiryTable(View(t))
  }

  lemma KeysSeparate()
    ensures KeySeparates(DestinationKeyOf) && KeySeparates(ExpiryKeyOf)
  {
    forall d, e | Storable(d) && Storable(e) && DestinationKeyOf(d) == DestinationKeyOf(e) ensures d.id == e.id {
      NulSeparated(d.destination, d.id, e.destination, e.id);
    }
    forall d, e | Storable(d) && Storable(e) && ExpiryKeyOf(d) == ExpiryKeyOf(e) ensures d.id == e.id {
      ExpiryKeyInjective(d.expires, d.id, e.expires, e.id);
    }
  }

  /** Replacing the stale key by the new one keeps an index an image. */
  lemma ImageAfterPut(
    index: map<Str, Str>, view: map<Str, Envelope>, key: Envelope -> Str, e: Envelope, index': map<Str, Str>)
    requires WellFormed(view) && Storable(e) && KeySeparates(key) && IsImage(index, view, key)
    requires index' == (if e.id in view then DropStale(index, key(view[e.id]), key(e)) else index)[key(e) := e.id]
    ensures IsImage(index', view[e.id := e], key)
  {
    var view' := view[e.id := e];
    forall k | k in index' ensures index'[k] in view' && key(view'[index'[k]]) == k {
      if k != key(e) { assert k in index && index[k] != e.id; }
    }
    forall id | id in view' ensures key(view'[id]) in index' && index'[key(view'[id])] == id {
      if id != e.id {
        assert key(view[id]) != key(e);
        if e.id in view { assert key(view[id]) != key(view[e.id]); }
      }
    }
  }

  lemma ImageAfterRemove(index: map<Str, Str>, view: map<Str, Envelope>, key: Envelope -> Str, id: Str)
    requires WellFormed(view) && KeySeparates(key) && IsImage(index, view, key) && id in view
    ensures IsImage(index - {key(view[id])}, view - {id}, key)
  {
    var index', view' := index - {key(view[id])}, view - {id};
    forall k | k in index' ensures index'[k] in view' && key(view'[index'[k]]) == k {
      assert k in index && index[k] != id;
    }
    forall x | x in view' ensures key(view'[x]) in index' && index'[key(view'[x])] == x {
      assert key(view[x]) != key(view[id]);
    }
  }

  // ---- every transaction keeps the indexes exact

  lemma ViewAfterPut(t: Tables, e: Envelope, t': Tables)
    requires InCodecRange(e) && t'.envelopes == t.envelopes[e.id := Encode(e)]
    ensures View(t') == View(t)[e.id := e]
    ensures View(t).Keys == t.envelopes.Keys ==> View(t').Keys == t'.envelopes.Keys
  {
    hide Decode; hide Encode;
    RoundTrip(e);
  }

  lemma IndexesAfterPut(t: Tables, view: map<Str, Envelope>, e: Envelope, t': Tables)
    requires IndexesAgree(t, view) && Storable(e)
    requires t'.byDestination ==
             (if e.id in view then DropStale(t.byDestination, DestinationKeyOf(view[e.id]), DestinationKeyOf(e))
              else t.byDestination)[DestinationKeyOf(e) := e.id]
    requires t'.byExpiry ==
             (if e.id in view then DropStale(t.byExpiry, ExpiryKeyOf(view[e.id]), ExpiryKeyOf(e))
              else t.byExpiry)[ExpiryKeyOf(e) := e.id]
    ensures IndexesAgree(t', view[e.id := e])
  {
    hide ExpiryKeyOf; hide DestinationKeyOf; hide Storable;
    KeysSeparate();
    ImageAfterPut(t.byDestination, view, DestinationKeyOf, e, t'.byDestination);
    ImageAfterPut(t.byExpiry, view, ExpiryKeyOf, e, t'.byExpiry);
  }

  /** What a committed persist writes, in terms of the view. */
  lemma PersistWrites(t: Tables, e: Envelope)
    requires Agrees(t) && ValidTime(e.expires) && Valid(e) && PutsAccepted(e)
    ensures var t', view := Persist(t, e, true).0, View(t);
            && Persist(t, e, true).1
            && t'.envelopes == t.envelopes[e.id := Encode(e)]
            && t'.expiry == t.expiry[e.id := PutInt64(e.expires)]
            && t'.byDestination ==
               (if e.id in view then DropStale(t.byDestination, DestinationKeyOf(view[e.id]), DestinationKeyOf(e))
                else t.byDestination)[DestinationKeyOf(e) := e.id]
            && t'.byExpiry ==
               (if e.id in view then DropStale(t.byExpiry, ExpiryKeyOf(view[e.id]), ExpiryKeyOf(e))
                else t.byExpiry)[ExpiryKeyOf(e) := e.id]
  {
    hide Decode; hide Encode; hide Text; hide PutInt64;
    assert e.id in View(t) <==> e.id in t.envelopes;
    if e.id in View(t) { assert View(t)[e.id].id == e.id && InCodecRange(View(t)[e.id]); }
  }

  /** A persist either commits and sets one entry of the view, or changes nothing. */
  lemma PersistKeepsAgreement(t: Tables, e: Envelope, commit: bool)
    requires Agrees(t) && Storable(e)
    ensures var (t', ok) := Persist(t, e, commit);
            && Agrees(t')
            && (ok <==> Valid(e) && PutsAccepted(e) && commit)
            && View(t') == if ok then View(t)[e.id := e] else View(t)
  {
    hide View; hide Decode; hide Encode; hide Text; hide PutInt64; hide IsImage;
    if Valid(e) && PutsAccepted(e) && commit {
      var t' := Persist(t, e, true).0;
      PersistWrites(t, e);
      ViewAfterPut(t, e, t');
      IndexesAfterPut(t, View(t), e, t');
      assert t'.expiry == ExpiryTable(View(t)[e.id := e]);
    }
  }

  /** What decodes of an envelope still has its id, destination and expiry, and is storable. */
  predicate Survives(e: Envelope)
  {
    var d := Decode(Encode(e));
    && d.Ok? && Storable(d.envelope)
    && d.envelope.id == e.id && d.envelope.destination == e.destination && d.envelope.expires == e.expires
  }

  /** Whatever envelope is committed, the indexes stay exact iff it survives the codec so far. */
  lemma PersistAgreesIff(t: Tables, e: Envelope)
    requires Agrees(t) && ValidTime(e.expires) && Valid(e) && PutsAccepted(e)
    ensures Agrees(Persist(t, e, true).0) <==> Survives(e)
  {
    hide View; hide Decode; hide Encode; hide Text; hide PutInt64; hide IsImage; hide Survives; hide Agrees;
    PersistWrites(t, e);
    ViewAfterAnyPut(t, e, Persist(t, e, true).0);
    if Survives(e) { SurvivorAgrees(t, e); }
    if Agrees(Persist(t, e, true).0) { AgreementSurvives(t, e); }
  }

  /** A persist is refused exactly for a missing id or destination, a zero time, an expiry before the
      creation, a key or value that is too long, or a failed commit. */
  lemma RefusedIff(t: Tables, e: Envelope, commit: bool)
    requires ValidTime(e.expires)
    ensures !Persist(t, e, commit).1 <==>
              || e.id == [] || e.destination == [] || e.created == ZERO_TIME || e.expires == ZERO_TIME
              || e.expires < e.created || !commit
              || |e.id| + |e.destination| + 1 > 32768 || |Text(e.expires)| + 1 + |e.id| > 32768
              || 28 + |e.id| + |e.destination| + |e.origin| + |e.payload| > 0x7fff_fffe
    ensures !Persist(t, e, commit).1 ==> Persist(t, e, commit).0 == t
  {
    hide Decode; hide Encode; hide Text; hide PutInt64;
    EncodedLength(e);
  }

  lemma ViewAfterAnyPut(t: Tables, e: Envelope, t': Tables)
    requires t'.envelopes == t.envelopes[e.id := Encode(e)]
    ensures var d := Decode(Encode(e)); View(t') == if d.Ok? then View(t)[e.id := d.envelope] else View(t) - {e.id}
  {
    hide Decode; hide Encode;
  }

  lemma SurvivorAgrees(t: Tables, e: Envelope)
    requires Agrees(t) && ValidTime(e.expires) && Valid(e) && PutsAccepted(e) && Survives(e)
    ensures Agrees(Persist(t, e, true).0)
  {
    hide View; hide Decode; hide Encode; hide Text; hide PutInt64; hide IsImage; hide Storable;
    var t', d := Persist(t, e, true).0, Decode(Encode(e)).envelope;
    PersistWrites(t, e);
    ViewAfterAnyPut(t, e, t');
    assert DestinationKeyOf(d) == DestinationKeyOf(e) && ExpiryKeyOf(d) == ExpiryKeyOf(e);
    IndexesAfterPut(t, View(t), d, t');
    assert t'.expiry == ExpiryTable(View(t)[e.id := d]);
  }

  lemma AgreementSurvives(t: Tables, e: Envelope)
    requires Agrees(t) && ValidTime(e.expires) && Valid(e) && PutsAccepted(e) && Agrees(Persist(t, e, true).0)
    ensures Survives(e)
  {
    hide View; hide Decode; hide Encode; hide Text; hide PutInt64; hide ExpiryKeyOf;
    var t' := Persist(t, e, true).0;
    PersistWrites(t, e);
    ViewAfterAnyPut(t, e, t');
    assert e.id in t'.envelopes && e.id in View(t');
    var d := View(t')[e.id];
    assert d.id == e.id && Storable(d);
    assert t'.byDestination[DestinationKeyOf(e)] == e.id && DestinationKeyOf(d) == DestinationKeyOf(e);
    SameTail(d.destination, e.destination, e.id);
    assert t'.expiry[e.id] == PutInt64(e.expires);
    assert ExpiryTable(View(t'))[e.id] == PutInt64(d.expires);
    Int64RoundTrip(d.expires); Int64RoundTrip(e.expires);
  }

  lemma SameTail(a: Str, b: Str, id: Str)
    requires a + [0] + id == b + [0] + id
    ensures a == b
  {
    assert |a| == |b|;
    assert a == (a + [0] + id)[..|a|] && b == (b + [0] + id)[..|b|];
  }

  lemma ViewAfterRemove(t: Tables, id: Str, t': Tables)
    requires t'.envelopes == t.envelopes - {id}
    ensures View(t') == View(t) - {id}
  {
  }

  lemma IndexesAfterRemove(t: Tables, view: map<Str, Envelope>, id: Str, t': Tables)
    requires IndexesAgree(t, view) && id in view
    requires t'.byDestination == t.byDestination - {DestinationKeyOf(view[id])}
    requires t'.byExpiry == t.byExpiry - {ExpiryKeyOf(view[id])}
    ensures IndexesAgree(t', view - {id})
  {
    hide ExpiryKeyOf; hide DestinationKeyOf; hide Storable;
    KeysSeparate();
    ImageAfterRemove(t.byDestination, view, DestinationKeyOf, id);
    ImageAfterRemove(t.byExpiry, view, ExpiryKeyOf, id);
  }

  lemma RemoveWrites(t: Tables, id: Str)
    requires View(t).Keys == t.envelopes.Keys && WellFormed(View(t)) && id in View(t)
    ensures var t', view := Remove(t, id, true), View(t);
            && t'.envelopes == t.envelopes - {id}
            && t'.expiry == t.expiry - {id}
            && t'.byDestination == t.byDestination - {DestinationKeyOf(view[id])}
            && t'.byExpiry == t.byExpiry - {ExpiryKeyOf(view[id])}
  {
    hide Decode; hide Text;
    assert View(t)[id].id == id && Storable(View(t)[id]);
  }

  lemma RemoveKeepsAgreement(t: Tables, id: Str, commit: bool)
    requires Agrees(t)
    ensures Agrees(Remove(t, id, commit))
    ensures View(Remove(t, id, commit)) == if commit then View(t) - {id} else View(t)
  {
    hide View; hide Decode; hide Text; hide PutInt64; hide IsImage;
    if commit {
      var t' := Remove(t, id, true);
      if id in View(t) {
        RemoveWrites(t, id);
        ViewAfterRemove(t, id, t');
        IndexesAfterRemove(t, View(t), id, t');
        assert t'.expiry == ExpiryTable(View(t) - {id});
      } else {
        assert t.envelopes - {id} == t.envelopes && t.expiry - {id} == t.expiry;
        assert t' == t && View(t) - {id} == View(t);
      }
    }
  }

  /** A database from before the expiry table: that table may miss entries, not lie. */
  ghost predicate AgreesButForExpiry(t: Tables)
  {
    && View(t).Keys == t.envelopes.Keys
    && IndexesAgree(t, View(t))
    && (forall id | id in t.expiry :: id in View(t) && t.expiry[id] == PutInt64(View(t)[id].expires))
  }

  /** Backfill completes such a database. */
  lemma BackfillRepairs(t: Tables)
    requires AgreesButForExpiry(t)
    ensures Agrees(Backfill(t)) && View(Backfill(t)) == View(t)
  {
    hide IsImage; hide Decode; hide PutInt64;
    BackfillExpiry(t, View(t));
    assert Backfill(t) == t.(expiry := ExpiryTable(View(t)));
    assert View(Backfill(t)) == View(t);
  }

  /** Opening an exact database changes nothing. */
  lemma BackfillOfExact(t: Tables)
    requires Agrees(t)
    ensures Backfill(t) == t
  {
    hide IsImage; hide Decode; hide PutInt64;
    BackfillExpiry(t, View(t));
  }

  lemma BackfillExpiry(t: Tables, view: map<Str, Envelope>)
    requires view == View(t) && view.Keys == t.envelopes.Keys
    requires forall id | id in t.expiry :: id in view && t.expiry[id] == PutInt64(view[id].expires)
    ensures Backfill(t).expiry == ExpiryTable(view)
  {
    hide Decode; hide PutInt64;
  }

  // ---- whole runs

  datatype Op =
    | OpPersist(e: Envelope, commit: bool)
    | OpRemove(id: Str, commit: bool)
    | OpReopen

  ghost predicate Sensible(op: Op) { op.OpPersist? ==> Storable(op.e) }

  ghost function Apply(t: Tables, op: Op): Tables
    requires Sensible(op)
  {
    match op
    case OpPersist(e, commit) => Persist(t, e, commit).0
    case OpRemove(id, commit) => Remove(t, id, commit)
    case OpReopen => Backfill(t)
  }

  /** The same operation on one plain table. */
  ghost function ApplyView(v: map<Str, Envelope>, op: Op): map<Str, Envelope>
    requires Sensible(op)
  {
    match op
    case OpPersist(e, commit) => if Valid(e) && PutsAccepted(e) && commit then v[e.id := e] else v
    case OpRemove(id, commit) => if commit then v - {id} else v
    case OpReopen => v
  }

  ghost function Run(t: Tables, ops: seq<Op>): Tables
    requires forall i | 0 <= i < |ops| :: Sensible(ops[i])
    decreases |ops|
  {
    if ops == [] then t else Run(Apply(t, ops[0]), ops[1..])
  }

  ghost function RunView(v: map<Str, Envelope>, ops: seq<Op>): map<Str, Envelope>
    requires forall i | 0 <= i < |ops| :: Sensible(ops[i])
    decreases |ops|
  {
    if ops == [] then v else RunView(ApplyView(v, ops[0]), ops[1..])
  }

  /** In every reachable state the three indexes are exact, and the four tables together behave
      as one plain table under the same operations. */
  lemma {:induction false} RunsAgree(t: Tables, ops: seq<Op>)
    requires Agrees(t) && forall i | 0 <= i < |ops| :: Sensible(ops[i])
    ensures Agrees(Run(t, ops))
    ensures View(Run(t, ops)) == RunView(View(t), ops)
    decreases |ops|
  {
    hide View; hide Agrees; hide Persist; hide Remove; hide Backfill; hide Storable;
    if ops != [] {
      match ops[0] {
        case OpPersist(e, commit) => PersistKeepsAgreement(t, e, commit);
        case OpRemove(id, commit) => RemoveKeepsAgreement(t, id, commit);
        case OpReopen => BackfillOfExact(t);
      }
      RunsAgree(Apply(t, ops[0]), ops[1..]);
    }
  }

  lemma EmptyAgrees()
    ensures Agrees(EMPTY)
  {
  }
}
