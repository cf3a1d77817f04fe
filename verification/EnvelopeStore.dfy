/** The envelope store's operations: transactions on the four tables, cursor scans over the
    indexes, and what each scan returns in terms of the primary table alone. */
module EnvelopeStores {
  import opened ByteStrings
  import opened Ordered
  import opened Digest
  import opened Rfc3339
  import opened Envelopes
  import opened EnvelopeTables

  // ---- eligibility

  function Lookup(m: map<Str, Str>, k: Str): Option<Str> { if k in m then Some(m[k]) else None }

  /** A digest id whose recorded expiry is not past. */
  predicate EligibleItem(id: Str, raw: Option<Str>, now: Time)
  {
    && IsDigest(id)
    && raw.Some? && |raw.value| >= 8
    && now <= GetInt64(raw.value[..8])
  }

  /** Eligibility read off the primary table. */
  ghost function Eligible(view: map<Str, Envelope>, now: Time): set<Str>
  {
    set id | id in view && IsDigest(id) && now <= view[id].expires
  }

  ghost function EligibleFor(view: map<Str, Envelope>, destination: Str, now: Time): set<Str>
  {
    set id | id in Eligible(view, now) && view[id].destination == destination
  }

  /** Some envelope is filed under the key that destination and id would have. */
  ghost predicate Filed(view: map<Str, Envelope>, destination: Str, id: Str)
  {
    exists other | other in view :: DestinationKey(view[other].destination, other) == DestinationKey(destination, id)
  }

  /** What a scan of a destination's prefix finds, for any byte string. */
  ghost function EligibleUnder(view: map<Str, Envelope>, destination: Str, now: Time): set<Str>
  {
    set id | id in Eligible(view, now) && Filed(view, destination, id)
  }

  lemma EligibleItemAgrees(t: Tables, id: Str, now: Time)
    requires Agrees(t)
    ensures EligibleItem(id, Lookup(t.expiry, id), now) <==> id in Eligible(View(t), now)
  {
    hide View; hide IsImage; hide PutInt64; hide GetInt64; hide IsDigest;
    assert id in t.expiry <==> id in View(t);
    if id in t.expiry {
      assert Storable(View(t)[id]);
      assert t.expiry[id][..8] == t.expiry[id];
      Int64RoundTrip(View(t)[id].expires);
    }
  }

  /** The item id a destination key holds after its first NUL. */
  function ItemIdFromKey(key: Str): Option<Str>
  {
    var sep := IndexNul(key);
    if sep < 0 || sep + 1 >= |key| then None else Some(key[sep + 1..])
  }

  lemma DestinationEntry(t: Tables, k: Str)
    requires Agrees(t) && k in t.byDestination
    ensures var id := t.byDestination[k];
            && id in View(t) && NulFree(View(t)[id].destination)
            && k == View(t)[id].destination + [0] + id
            && ItemIdFromKey(k) == if id == [] then None else Some(id)
  {
    hide View; hide IndexNul; hide InCodecRange; hide ExpiryKeyOf; hide ExpiryTable;
    var id := t.byDestination[k];
    var e := View(t)[id];
    assert e.id == id && Storable(e);
    IndexNulOfKey(e.destination, id);
    assert k[|e.destination| + 1..] == id;
  }

  lemma DestinationEntryOf(t: Tables, id: Str)
    requires Agrees(t) && id in View(t)
    ensures DestinationKey(View(t)[id].destination, id) in t.byDestination
    ensures t.byDestination[DestinationKey(View(t)[id].destination, id)] == id
  {
    hide View;
    assert View(t)[id].id == id;
    assert DestinationKeyOf(View(t)[id]) in t.byDestination;
  }

  /** The keys of one destination are exactly those with its prefix. */
  lemma PrefixMeansDestination(t: Tables, destination: Str, x: Str)
    requires Agrees(t) && NulFree(destination)
    ensures destination + [0] + x in t.byDestination <==> x in View(t) && View(t)[x].destination == destination
  {
    hide View; hide Agrees;
    var k := destination + [0] + x;
    if k in t.byDestination {
      DestinationEntry(t, k);
      NulSeparated(destination, x, View(t)[t.byDestination[k]].destination, t.byDestination[k]);
    }
    if x in View(t) && View(t)[x].destination == destination { DestinationEntryOf(t, x); }
  }

  datatype Page = Page(ids: seq<Str>, next: Str, total: nat, eligible: seq<Str>)

  class EnvelopeStore {
    var envelopes: map<Str, Str>
    var byDestination: map<Str, Str>
    var byExpiry: map<Str, Str>
    var expiry: map<Str, Str>

    function Abs(): Tables
      reads this
    {
      Tables(envelopes, byDestination, byExpiry, expiry)
    }

    ghost predicate Valid()
      reads this
    {
      Agrees(Abs())
    }

    ghost function Contents(): map<Str, Envelope>
      reads this
    {
      View(Abs())
    }

    constructor ()
      ensures Valid() && Contents() == map[]
    {
      envelopes, byDestination, byExpiry, expiry := map[], map[], map[], map[];
    }

    /** Stores an envelope in every table, or, when it is refused or the commit fails, leaves
        every table as it was. */
    method PersistEnvelope(e: Envelope, commit: bool) returns (ok: bool)
      requires ValidTime(e.expires)
      modifies this
      ensures (Abs(), ok) == Persist(old(Abs()), e, commit)
      ensures ok <==> Envelopes.Valid(e) && PutsAccepted(e) && commit
      ensures !ok ==> Abs() == old(Abs())
      ensures old(Valid()) && ok ==> (Valid() <==> Survives(e))
      ensures old(Valid()) && Storable(e) ==>
                Valid() && Contents() == if ok then old(Contents())[e.id := e] else old(Contents())
    {
      hide View; hide Agrees; hide Decode; hide Encode; hide Text; hide PutInt64;
      if Valid() {
        if Storable(e) { PersistKeepsAgreement(Abs(), e, commit); }
        if Envelopes.Valid(e) && PutsAccepted(e) && commit { PersistAgreesIff(Abs(), e); }
      }
      ghost var before := Abs();
      var destinations, expiries := byDestination, byExpiry;
      var dk, xk := DestinationKey(e.destination, e.id), ExpiryKey(e.expires, e.id);
      if e.id in envelopes {
        var existing := Decode(envelopes[e.id]);
        if existing.Ok? {
          DecodedInRange(envelopes[e.id]);
          var oldDk := DestinationKey(existing.envelope.destination, e.id);
          if oldDk != dk { destinations := destinations - {oldDk}; }
          var oldXk := ExpiryKey(existing.envelope.expires, e.id);
          if oldXk != xk { expiries := expiries - {oldXk}; }
        }
      }
      if !Envelopes.Valid(e) || !PutsAccepted(e) || !commit {
        return false;  // the transaction rolls back
      }
      envelopes := envelopes[e.id := Encode(e)];
      byDestination := destinations[dk := e.id];
      byExpiry := expiries[xk := e.id];
      expiry := expiry[e.id := PutInt64(e.expires)];
      ok := true;
    }

    method RemoveEnvelope(id: Str, commit: bool)
      requires Valid()
      modifies this
      ensures Abs() == Remove(old(Abs()), id, commit)
      ensures Valid()
      ensures Contents() == if commit then old(Contents()) - {id} else old(Contents())
    {
      hide View; hide Agrees; hide Decode; hide Text;
      RemoveKeepsAgreement(Abs(), id, commit);
      if !commit { return; }
      if id in envelopes {
        var existing := Decode(envelopes[id]);
        if existing.Ok? {
          DecodedInRange(envelopes[id]);
          byDestination := byDestination - {DestinationKey(existing.envelope.destination, id)};
          byExpiry := byExpiry - {ExpiryKey(existing.envelope.expires, id)};
        }
      }
      envelopes := envelopes - {id};
      expiry := expiry - {id};
    }

    /** Opening walks the primary table and fills in missing expiry entries. */
    method Reopen()
      modifies this
      ensures Abs() == Backfill(old(Abs()))
      ensures old(Valid()) ==> Valid() && Contents() == old(Contents())
    {
      hide View; hide Agrees; hide Decode; hide PutInt64;
      if Valid() { BackfillOfExact(Abs()); }
      expiry := FillExpiry(envelopes, expiry);
    }

    method GetEnvelopeById(id: Str) returns (r: Option<Envelope>)
      ensures r == if id in Contents() then Some(Contents()[id]) else None
    {
      hide Decode;
      if id !in envelopes { return None; }
      var d := Decode(envelopes[id]);
      return if d.Ok? then Some(d.envelope) else None;
    }

    /** Every unexpired digest id, each once, in digest order. */
    method GetAllEnvelopeIds(now: Time) returns (r: seq<Str>)
      requires Valid()
      ensures r == Enumerate(Eligible(Contents(), now))
    {
      hide View; hide Agrees; hide Eligible; hide IsDigest; hide EligibleItem; hide ItemIdFromKey;
      var keys := Enumerate(byDestination.Keys);
      var found: set<Str> := {};
      for i := 0 to |keys|
        invariant forall x :: x in found <==>
          exists j | 0 <= j < i ::
            keys[j] in byDestination && byDestination[keys[j]] == x && x in Eligible(Contents(), now)
      {
        assert keys[i] in Elements(keys);
        DestinationEntry(Abs(), keys[i]);
        NoEmptyId(Contents(), now);
        var id := ItemIdFromKey(keys[i]);
        if id.Some? {
          EligibleItemAgrees(Abs(), id.value, now);
          if EligibleItem(id.value, Lookup(expiry, id.value), now) { found := found + {id.value}; }
        }
      }
      forall x ensures x in found <==> x in Eligible(Contents(), now) {
        if x in Eligible(Contents(), now) {
          EligibleInView(Contents(), now, x);
          DestinationEntryOf(Abs(), x);
          var k := DestinationKey(Contents()[x].destination, x);
          assert k in Elements(keys);
          var j :| 0 <= j < |keys| && keys[j] == k;
        }
      }
      assert found == Eligible(Contents(), now);
      r := SortSet(found);
    }

    /** One page of a destination's unexpired digest ids after a cursor, with the count and the
        list of all of them; a cursor that is neither empty nor a digest is refused. */
    method GetEnvelopeIdsByDestinationPage(destination: Str, cursor: Str, limit: int, now: Time)
      returns (r: Option<Page>)
      requires Valid()
      ensures r.None? <==> limit > 0 && cursor != [] && !IsDigest(cursor)
      ensures limit <= 0 ==> r == Some(Page([], [], 0, []))
      ensures r.Some? && limit > 0 ==>
        var all := Enumerate(EligibleUnder(Contents(), destination, now));
        && r.value.ids == Take(After(all, cursor), limit)
        && r.value.next == (if r.value.ids == [] then [] else r.value.ids[|r.value.ids| - 1])
        && r.value.total == |all| && r.value.eligible == all
      ensures NulFree(destination) ==>
                EligibleUnder(Contents(), destination, now) == EligibleFor(Contents(), destination, now)
    {
      hide View; hide Agrees; hide IsDigest; hide After; hide EligibleFor; hide EligibleUnder;
      if NulFree(destination) { UnderIsFor(Abs(), destination, now); }
      if limit <= 0 { return Some(Page([], [], 0, [])); }
      if cursor != [] && !IsDigest(cursor) { return None; }
      var eligible := ScanDestination(destination, [], -1, now);
      var ids := ScanDestination(destination, cursor, limit, now);
      ghost var all := Enumerate(EligibleUnder(Contents(), destination, now));
      AfterMember(all, []);
      AfterNone(all);
      AfterOfNone(cursor);
      if |eligible| == 0 { return Some(Page([], [], 0, [])); }
      var next := if |ids| > 0 then ids[|ids| - 1] else [];
      return Some(Page(ids, next, |eligible|, eligible));
    }

    /** Walks the destination's keys from a cursor, skipping the cursor itself, until the limit
        (none when negative) or the end of the prefix. */
    method ScanDestination(destination: Str, cursor: Str, limit: int, now: Time) returns (ids: seq<Str>)
      requires Valid() && limit != 0
      ensures var rest := After(Enumerate(EligibleUnder(Contents(), destination, now)), cursor);
              ids == if limit < 0 then rest else Take(rest, limit)
    {
      hide View; hide Agrees; hide EligibleItem; hide EligibleUnder; hide Compare; hide Seek; hide After;
      hide Enumerate;
      ghost var wanted := EligibleUnder(Contents(), destination, now);
      var keys := Enumerate(byDestination.Keys);
      var prefix := destination + [0];
      var i := Seek(keys, prefix + cursor);
      ghost var lo := i;
      ids := [];
      while i < |keys| && |ids| != limit && HasPrefix(keys[i], prefix)
        invariant lo <= i <= |keys|
        invariant limit >= 0 ==> |ids| <= limit
        invariant Sorted(ids)
        invariant forall x :: x in ids <==> x in wanted && x != cursor && prefix + x in keys[lo..i]
        decreases |keys| - i
      {
        var id := keys[i][|prefix|..];
        assert keys[i] == prefix + id && keys[i] in Elements(keys);
        ScanStep(Abs(), destination, id, now);
        SliceGrows(keys, lo, i);
        ScanOrder(keys, prefix, lo, i, ids);
        if |keys[i]| > |prefix| && id != cursor && EligibleItem(id, Lookup(expiry, id), now) {
          ids := ids + [id];
        }
        i := i + 1;
      }
      forall x | x in wanted ensures prefix + x in keys {
        ScanStep(Abs(), destination, x, now);
        assert prefix + x in Elements(keys);
      }
      ScanStep(Abs(), destination, [], now);
      ScanResult(keys, prefix, cursor, i, ids, wanted, limit);
    }

    /** Walks the expiry index from its first key and stops at the first timestamp text above
        the limit's: the envelopes whose timestamp text is not above it, each once. */
    method GetExpiredEnvelopes(before: Time) returns (r: seq<Envelope>)
      requires Valid() && ValidTime(before)
      ensures forall e :: e in r <==> e.id in Contents() && Contents()[e.id] == e && TextExpired(e, before)
      ensures forall i, j | 0 <= i < j < |r| :: r[i].id != r[j].id
    {
      hide View; hide Agrees; hide Text; hide Compare; hide Enumerate; hide Decode; hide IndexNul;
      var keys := Enumerate(byExpiry.Keys);
      var limit := Text(before);
      r := [];
      var i := 0;
      while i < |keys|
        invariant 0 <= i <= |keys|
        invariant forall e :: e in r <==> e.id in Contents() && Contents()[e.id] == e && ExpiryKeyOf(e) in keys[..i]
        invariant forall e | e in r :: TextExpired(e, before)
        invariant forall a, b | 0 <= a < b < |r| :: r[a].id != r[b].id
      {
        assert keys[i] in Elements(keys);
        ExpiryEntry(Abs(), keys[i]);
        var sep := IndexNul(keys[i]);
        if sep >= 0 && Less(limit, keys[i][..sep]) {
          NothingExpiredPast(Abs(), keys, i, before);
          break;
        }
        CompareFlip(limit, keys[i][..sep]);
        var id := byExpiry[keys[i]];
        PrefixGrows(keys, i);
        FirstWithKey(Abs(), keys, i);
        if id in envelopes {
          var d := Decode(envelopes[id]);
          if d.Ok? { r := r + [d.envelope]; }
        }
        i := i + 1;
      }
      AllExpiryKeys(Abs(), keys, i);
    }

    /** Removes what `GetExpiredEnvelopes` lists, one transaction each, until one fails. */
    method SweepExpiredEnvelopes(before: Time, failAt: nat)
      returns (removed: nat, ghost expired: set<Str>, ghost gone: set<Str>)
      requires Valid() && ValidTime(before)
      modifies this
      ensures Valid()
      ensures expired == set id | id in old(Contents()) && TextExpired(old(Contents())[id], before)
      ensures removed == if failAt < |expired| then failAt else |expired|
      ensures gone <= expired && |gone| == removed && Contents() == old(Contents()) - gone
      ensures removed == |expired| ==> gone == expired
    {
      hide View; hide Agrees; hide TextExpired; hide Remove; hide IdsIn;
      var list := GetExpiredEnvelopes(before);
      expired := IdsIn(list);
      ViewIds(Abs());
      ExpiredIds(list, Contents(), before, expired);
      removed := 0;
      NoIds();
      while removed < |list|
        invariant removed <= |list| && removed <= failAt
        invariant Valid() && Contents() == old(Contents()) - IdsIn(list[..removed])
      {
        if removed == failAt { break; }
        IdsInPrefix(list, removed);
        RemoveEnvelope(list[removed].id, true);
        removed := removed + 1;
      }
      gone := IdsIn(list[..removed]);
      IdsInStart(list, removed);
      assert list[..|list|] == list;
    }
  }

  // ---- expiry

  /** What the sweep compares: timestamp texts, not times. */
  predicate TextExpired(e: Envelope, before: Time)
    requires ValidTime(before)
  {
    ValidTime(e.expires) && Compare(Text(e.expires), Text(before)) <= 0
  }

  /** The sweep is exact to the second, and within the boundary second it follows the clock
      exactly when neither trimmed fraction is the start of the other. */
  lemma SweepExactToTheSecond(e: Envelope, before: Time)
    requires ValidTime(e.expires) && ValidTime(before)
    ensures e.expires / SECOND < before / SECOND ==> TextExpired(e, before)
    ensures e.expires / SECOND > before / SECOND ==> !TextExpired(e, before)
    ensures e.expires / SECOND == before / SECOND ==>
              ((TextExpired(e, before) <==> e.expires <= before) <==> !Clashing(e.expires, before))
  {
    hide Text; hide Compare;
    if e.expires / SECOND < before / SECOND {
      TextOrderAcrossSeconds(e.expires, before);
    } else if e.expires / SECOND > before / SECOND {
      TextOrderAcrossSeconds(before, e.expires);
      CompareFlip(Text(before), Text(e.expires));
    } else {
      TextOrderWithinSecond(e.expires, before);
    }
  }

  lemma ExpiryKeyOrder(t: Time, x: Str, u: Time, y: Str)
    requires ValidTime(t) && ValidTime(u) && Less(ExpiryKey(t, x), ExpiryKey(u, y))
    ensures Compare(Text(t), Text(u)) <= 0
  {
    hide Text; hide Compare;
    TextShape(t, u); TextShape(u, t);
    CompareZero(Text(t), Text(u));
    if Text(t) != Text(u) {
      assert ExpiryKey(t, x) == Text(t) + ([0] + x) && ExpiryKey(u, y) == Text(u) + ([0] + y);
      CompareDiverging(Text(t), Text(u), [0] + x, [0] + y);
    }
  }

  lemma ExpiryEntry(t: Tables, k: Str)
    requires Agrees(t) && k in t.byExpiry
    ensures var id := t.byExpiry[k];
            && id in View(t) && id in t.envelopes && View(t)[id].id == id
            && Decode(t.envelopes[id]) == Ok(View(t)[id])
            && ValidTime(View(t)[id].expires)
            && k == ExpiryKey(View(t)[id].expires, id) == ExpiryKeyOf(View(t)[id])
            && IndexNul(k) >= 0 && k[..IndexNul(k)] == Text(View(t)[id].expires)
  {
    hide Decode; hide Text; hide IndexNul; hide ExpiryTable; hide DestinationKeyOf;
    var id := t.byExpiry[k];
    var e := View(t)[id];
    assert e.id == id && Storable(e);
    TextShape(e.expires, e.expires);
    IndexNulOfKey(Text(e.expires), id);
    assert k[..|Text(e.expires)|] == Text(e.expires);
  }

  lemma ExpiryEntryOf(t: Tables, id: Str)
    requires Agrees(t) && id in View(t)
    ensures View(t)[id].id == id && Storable(View(t)[id])
    ensures ExpiryKeyOf(View(t)[id]) in t.byExpiry && t.byExpiry[ExpiryKeyOf(View(t)[id])] == id
  {
    hide View; hide ExpiryKeyOf; hide ExpiryTable; hide DestinationKeyOf;
  }

  /** Past the first key above the limit, no envelope's text is at or below it. */
  lemma NothingExpiredPast(t: Tables, keys: seq<Str>, i: nat, before: Time)
    requires Agrees(t) && keys == Enumerate(t.byExpiry.Keys) && i < |keys| && keys[i] in t.byExpiry && ValidTime(before)
    requires ValidTime(View(t)[t.byExpiry[keys[i]]].expires)
    requires Less(Text(before), Text(View(t)[t.byExpiry[keys[i]]].expires))
    ensures forall id | id in View(t) && TextExpired(View(t)[id], before) :: ExpiryKeyOf(View(t)[id]) in keys[..i]
  {
    hide View; hide Agrees; hide Text; hide Compare; hide Enumerate; hide ExpiryKey;
    ExpiryEntry(t, keys[i]);
    var u := View(t)[t.byExpiry[keys[i]]].expires;
    forall id | id in View(t) && TextExpired(View(t)[id], before) ensures ExpiryKeyOf(View(t)[id]) in keys[..i] {
      var e := View(t)[id];
      ExpiryEntryOf(t, id);
      var k := ExpiryKeyOf(e);
      assert k in Elements(keys);
      var j :| 0 <= j < |keys| && keys[j] == k;
      BelowLimitIsEarlier(keys, i, j, e.expires, id, u, t.byExpiry[keys[i]], before);
      assert keys[..i][j] == k;
    }
  }

  lemma BelowLimitIsEarlier(keys: seq<Str>, i: nat, j: nat, x: Time, xId: Str, u: Time, uId: Str, before: Time)
    requires Sorted(keys) && i < |keys| && j < |keys| && ValidTime(x) && ValidTime(u) && ValidTime(before)
    requires keys[j] == ExpiryKey(x, xId) && keys[i] == ExpiryKey(u, uId)
    requires Less(Text(before), Text(u)) && Compare(Text(x), Text(before)) <= 0
    ensures j < i
  {
    hide Text; hide Compare; hide ExpiryKey;
    LessTransitive(Text(x), Text(before), Text(u));
    CompareFlip(Text(x), Text(u)); CompareZero(Text(x), Text(u));
    if i < j { ExpiryKeyOrder(u, uId, x, xId); }
    if i == j { ExpiryKeyInjective(x, xId, u, uId); }
  }

  lemma PrefixGrows(keys: seq<Str>, i: nat)
    requires i < |keys|
    ensures keys[..i + 1] == keys[..i] + [keys[i]]
  {
  }

  /** The key under the cursor belongs to one envelope, not listed before. */
  lemma FirstWithKey(t: Tables, keys: seq<Str>, i: nat)
    requires Agrees(t) && Sorted(keys) && i < |keys| && keys[i] in t.byExpiry
    ensures keys[i] !in keys[..i]
    ensures forall id | id in View(t) && ExpiryKeyOf(View(t)[id]) == keys[i] :: id == t.byExpiry[keys[i]]
  {
    hide View; hide ExpiryKeyOf; hide ExpiryTable; hide DestinationKeyOf; hide Compare;
    SortedDistinct(keys);
  }

  lemma AllExpiryKeys(t: Tables, keys: seq<Str>, i: nat)
    requires Agrees(t) && keys == Enumerate(t.byExpiry.Keys) && i <= |keys|
    ensures i == |keys| ==> forall id | id in View(t) :: ExpiryKeyOf(View(t)[id]) in keys[..i]
  {
    hide View; hide Agrees; hide ExpiryKeyOf; hide Enumerate;
    if i == |keys| {
      assert keys[..i] == keys;
      forall id | id in View(t) ensures ExpiryKeyOf(View(t)[id]) in keys {
        ExpiryEntryOf(t, id);
        assert ExpiryKeyOf(View(t)[id]) in Elements(keys);
      }
    }
  }

  lemma ViewIds(t: Tables)
    requires Agrees(t)
    ensures forall id | id in View(t) :: View(t)[id].id == id
  {
  }

  ghost function IdsIn(list: seq<Envelope>): set<Str> { set e | e in list :: e.id }

  lemma IdsInPrefix(list: seq<Envelope>, n: nat)
    requires n < |list|
    ensures IdsIn(list[..n + 1]) == IdsIn(list[..n]) + {list[n].id}
  {
    assert list[..n + 1] == list[..n] + [list[n]];
  }

  lemma IdsInStart(list: seq<Envelope>, n: nat)
    requires n <= |list| && forall i, j | 0 <= i < j < |list| :: list[i].id != list[j].id
    ensures IdsIn(list[..n]) <= IdsIn(list) && |IdsIn(list[..n])| == n
  {
    IdCount(list[..n]);
  }

  lemma NoIds()
    ensures forall list: seq<Envelope> :: IdsIn(list[..0]) == {}
  {
  }

  lemma ExpiredIds(list: seq<Envelope>, view: map<Str, Envelope>, before: Time, expired: set<Str>)
    requires ValidTime(before) && expired == IdsIn(list)
    requires forall e :: e in list <==> e.id in view && view[e.id] == e && TextExpired(e, before)
    requires forall i, j | 0 <= i < j < |list| :: list[i].id != list[j].id
    requires forall id | id in view :: view[id].id == id
    ensures expired == set id | id in view && TextExpired(view[id], before)
    ensures |expired| == |list|
  {
    hide TextExpired;
    forall id | id in view && TextExpired(view[id], before) ensures id in expired {
      assert view[id] in list;
    }
    IdCount(list);
  }

  lemma {:induction false} IdCount(list: seq<Envelope>)
    requires forall i, j | 0 <= i < j < |list| :: list[i].id != list[j].id
    ensures |IdsIn(list)| == |list|
  {
    if list != [] {
      var n := |list| - 1;
      IdCount(list[..n]);
      IdsInPrefix(list, n);
      assert list[..n + 1] == list;
    }
  }

  method FillExpiry(envelopes: map<Str, Str>, expiry: map<Str, Str>) returns (r: map<Str, Str>)
    ensures r == Backfill(Tables(envelopes, map[], map[], expiry)).expiry
  {
    hide Decode; hide PutInt64; hide Enumerate; hide Compare;
    var ids := Enumerate(envelopes.Keys);
    r := expiry;
    forall id ensures id in ids <==> id in envelopes {
      assert id in ids <==> id in Elements(ids);
    }
    for i := 0 to |ids|
      invariant forall id :: id in r <==> id in expiry || (id in ids[..i] && Decode(envelopes[id]).Ok?)
      invariant forall id | id in expiry :: r[id] == expiry[id]
      invariant forall id | id in r && id !in expiry :: r[id] == PutInt64(Decode(envelopes[id]).envelope.expires)
    {
      assert ids[..i + 1] == ids[..i] + [ids[i]];
      assert ids[i] in envelopes;
      if ids[i] !in r {
        var existing := Decode(envelopes[ids[i]]);
        if existing.Ok? { r := r[ids[i] := PutInt64(existing.envelope.expires)]; }
      }
    }
    assert ids[..|ids|] == ids;
  }

  /** What the scan tests at a key of the destination is membership in its eligible set. */
  lemma ScanStep(t: Tables, destination: Str, id: Str, now: Time)
    requires Agrees(t)
    ensures destination + [0] + id in t.byDestination ==>
              (|id| > 0 && EligibleItem(id, Lookup(t.expiry, id), now) <==>
                 id in EligibleUnder(View(t), destination, now))
    ensures id in EligibleUnder(View(t), destination, now) ==> destination + [0] + id in t.byDestination && id != []
  {
    hide View; hide Agrees; hide EligibleItem; hide IsDigest; hide Eligible; hide Filed;
    FiledMeansKey(t, destination, id);
    EligibleItemAgrees(t, id, now);
    NoEmptyId(View(t), now);
  }

  lemma FiledMeansKey(t: Tables, destination: Str, id: Str)
    requires Agrees(t)
    ensures destination + [0] + id in t.byDestination <==> Filed(View(t), destination, id)
  {
    hide View; hide Agrees;
    var k := destination + [0] + id;
    if k in t.byDestination { DestinationEntry(t, k); }
    if Filed(View(t), destination, id) {
      var other :| other in View(t) && DestinationKey(View(t)[other].destination, other) == k;
      DestinationEntryOf(t, other);
    }
  }

  /** For a destination without NUL these are exactly its own eligible ids. */
  lemma UnderIsFor(t: Tables, destination: Str, now: Time)
    requires Agrees(t) && NulFree(destination)
    ensures EligibleUnder(View(t), destination, now) == EligibleFor(View(t), destination, now)
  {
    hide View; hide Agrees; hide IsDigest; hide Filed;
    forall x | x in Eligible(View(t), now)
      ensures Filed(View(t), destination, x) <==> View(t)[x].destination == destination
    {
      FiledMeansKey(t, destination, x);
      PrefixMeansDestination(t, destination, x);
    }
  }

  /** A destination that holds a NUL shares its keys with ids of the part before its first NUL. */
  lemma NulDestination(t: Tables, a: Str, b: Str, id: Str)
    requires Agrees(t) && NulFree(a)
    ensures Filed(View(t), a + [0] + b, id) <==>
              b + [0] + id in View(t) && View(t)[b + [0] + id].destination == a
  {
    hide View; hide Agrees; hide Filed;
    FiledMeansKey(t, a + [0] + b, id);
    PrefixMeansDestination(t, a, b + [0] + id);
    assert a + [0] + b + [0] + id == a + [0] + (b + [0] + id);
  }

  lemma NoEmptyId(view: map<Str, Envelope>, now: Time)
    ensures [] !in Eligible(view, now)
  {
  }

  lemma EligibleInView(view: map<Str, Envelope>, now: Time, x: Str)
    requires x in Eligible(view, now)
    ensures x in view
  {
  }

  lemma AfterNone(s: seq<Str>)
    ensures After(s, []) == s
  {
  }

  lemma AfterOfNone(cursor: Str)
    ensures After([], cursor) == []
  {
  }

  lemma SliceGrows(keys: seq<Str>, lo: nat, i: nat)
    requires lo <= i < |keys|
    ensures keys[lo..i + 1] == keys[lo..i] + [keys[i]]
  {
  }

  /** The id at the cursor is above every id scanned so far. */
  lemma ScanOrder(keys: seq<Str>, prefix: Str, lo: nat, i: nat, ids: seq<Str>)
    requires Sorted(keys) && lo <= i < |keys| && HasPrefix(keys[i], prefix)
    requires forall x | x in ids :: prefix + x in keys[lo..i]
    ensures forall x | x in ids :: Less(x, keys[i][|prefix|..])
  {
    hide Compare;
    var id := keys[i][|prefix|..];
    assert keys[i] == prefix + id;
    forall x | x in ids ensures Less(x, id) {
      var j :| 0 <= j < |keys[lo..i]| && keys[lo..i][j] == prefix + x;
      assert keys[lo + j] == prefix + x;
      assert Less(keys[lo + j], keys[i]);
      CompareCommonPrefix(prefix, x, id);
    }
  }

  /** Where a scan stops, what it collected is the page asked for. */
  lemma ScanResult(keys: seq<Str>, prefix: Str, cursor: Str, n: nat, ids: seq<Str>, wanted: set<Str>, limit: int)
    requires Sorted(keys) && Seek(keys, prefix + cursor) <= n <= |keys| && Sorted(ids) && limit != 0
    requires forall x | x in wanted :: prefix + x in keys
    requires forall x :: x in ids <==> x in wanted && x != cursor && prefix + x in keys[Seek(keys, prefix + cursor)..n]
    requires [] !in wanted
    requires limit >= 0 ==> |ids| <= limit
    requires |ids| == limit || (n < |keys| ==> !HasPrefix(keys[n], prefix))
    ensures ids == if limit < 0 then After(Enumerate(wanted), cursor) else Take(After(Enumerate(wanted), cursor), limit)
  {
    hide Compare; hide Seek; hide Enumerate; hide After;
    var lo := Seek(keys, prefix + cursor);
    var all := Enumerate(wanted);
    var rest := After(all, cursor);
    AfterMember(all, cursor);
    forall x ensures x in rest <==> x in wanted && (cursor != [] ==> Less(cursor, x)) {
      assert x in all <==> x in Elements(all);
    }
    forall x | x in ids ensures x in rest { InScanIsAfter(keys, prefix, cursor, n, x); }
    forall x, y | x in ids && y in rest && y !in ids ensures Less(x, y) {
      Trichotomy(cursor, y);
      LaterInScan(keys, prefix, cursor, n, x, y);
    }
    SelectionIsPrefix(ids, rest) by {
      forall x | x in Elements(ids) ensures x in Elements(rest) { assert x in ids; }
    }
    if |ids| != limit {
      forall y | y in rest ensures y in ids {
        Trichotomy(cursor, y);
        EmptyIsLeast(y);
        ScanIsComplete(keys, prefix, cursor, n, y);
      }
      SortedUnique(ids, rest);
    }
  }

  lemma InScanIsAfter(keys: seq<Str>, prefix: Str, cursor: Str, n: nat, x: Str)
    requires Sorted(keys) && Seek(keys, prefix + cursor) <= n <= |keys|
    requires x != cursor && prefix + x in keys[Seek(keys, prefix + cursor)..n]
    ensures Less(cursor, x)
  {
    hide Compare; hide Seek;
    var lo := Seek(keys, prefix + cursor);
    var j :| 0 <= j < |keys[lo..n]| && keys[lo..n][j] == prefix + x;
    assert keys[lo + j] == prefix + x;
    if j > 0 { LessTransitive(prefix + cursor, keys[lo], keys[lo + j]) by { CompareFlip(prefix + cursor, keys[lo]); } }
    CompareFlip(prefix + cursor, prefix + x);
    CompareCommonPrefix(prefix, cursor, x);
    CompareZero(cursor, x);
  }

  lemma LaterInScan(keys: seq<Str>, prefix: Str, cursor: Str, n: nat, x: Str, y: Str)
    requires Sorted(keys) && Seek(keys, prefix + cursor) <= n <= |keys|
    requires prefix + x in keys[Seek(keys, prefix + cursor)..n]
    requires prefix + y in keys && prefix + y !in keys[Seek(keys, prefix + cursor)..n]
    requires cursor == [] || Less(cursor, y)
    ensures Less(x, y)
  {
    hide Compare; hide Seek;
    var lo := Seek(keys, prefix + cursor);
    var j :| 0 <= j < |keys[lo..n]| && keys[lo..n][j] == prefix + x;
    assert keys[lo + j] == prefix + x;
    var k :| 0 <= k < |keys| && keys[k] == prefix + y;
    EmptyIsLeast(y);
    CompareCommonPrefix(prefix, cursor, y); CompareFlip(prefix + cursor, prefix + y);
    assert lo <= k;
    OutsideSlice(keys, lo, n, k);
    SortedIndex(keys, lo + j, k);
    CompareCommonPrefix(prefix, x, y);
  }

  lemma OutsideSlice(keys: seq<Str>, lo: nat, n: nat, k: nat)
    requires lo <= n <= |keys| && k < |keys| && keys[k] !in keys[lo..n]
    ensures k < lo || n <= k
  {
    if lo <= k { assert forall i | 0 <= i < |keys[lo..n]| :: keys[lo..n][i] == keys[lo + i]; }
  }

  /** Collects a set in any order, then sorts it. */
  method SortSet(s: set<Str>) returns (r: seq<Str>)
    ensures r == Enumerate(s)
  {
    hide SortIds; hide Enumerate; hide Compare;
    var todo, ids := s, [];
    while todo != {}
      invariant todo <= s && Distinct(ids)
      invariant forall y :: y in ids <==> y in s && y !in todo
      decreases |todo|
    {
      var x :| x in todo;
      todo := todo - {x};
      ids := ids + [x];
    }
    assert Elements(ids) == s;
    SortIdsCorrect(ids);
    r := SortIds(ids);
  }
}
