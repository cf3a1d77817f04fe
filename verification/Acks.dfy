/** Durable per-device acknowledgements: key encoding, single and batch marking, the prefix
    delete of a removed message (internal/store/bbolt_store.go, internal/store/codec.go) and
    delivery identities (internal/storeforward/client.go). The ack bucket is its key set: the
    timestamp stored under a key is never read back. */
module Acks {
  import opened ByteStrings
  import opened Ordered

  function AckKey(msg: Str, who: Str): Str { msg + [0] + who }

  /** A delivery identity is the recipient, or the recipient and a device around a NUL. */
  function DeliveryIdentity(wayfarer: Str, device: Str): Str
  {
    if device == [] then wayfarer else wayfarer + [0] + device
  }

  function QueueRecipient(identity: Str): Str
  {
    var i := IndexNul(identity);
    if i < 0 then identity else identity[..i]
  }

  lemma {:induction false} NoNulIndex(s: Str)
    requires NulFree(s)
    ensures IndexNul(s) == -1
  {
    if s != [] { NoNulIndex(s[1..]); }
  }

  /** The queue of an identity is its recipient's, and two devices never share an identity. */
  lemma IdentityRoundTrip(w: Str, d: Str, w': Str, d': Str)
    requires NulFree(w) && NulFree(w')
    ensures QueueRecipient(DeliveryIdentity(w, d)) == w
    ensures DeliveryIdentity(w, d) == DeliveryIdentity(w', d') ==> w == w' && d == d'
  {
    NoNulIndex(w); NoNulIndex(w');
    if d != [] { IndexNulOfKey(w, d); assert (w + [0] + d)[..|w|] == w; }
    if d' != [] { IndexNulOfKey(w', d'); }
    if d != [] && d' != [] && DeliveryIdentity(w, d) == DeliveryIdentity(w', d') { NulSeparated(w, d, w', d'); }
  }

  /** Every (message, identity) pair has its own key, although identities hold NULs. */
  lemma KeysIsolatePairs(m: Str, who: Str, m': Str, who': Str)
    requires NulFree(m) && NulFree(m')
    ensures AckKey(m, who) == AckKey(m', who') <==> m == m' && who == who'
  {
    if AckKey(m, who) == AckKey(m', who') { NulSeparated(m, who, m', who'); }
  }

  // ---- marking

  function Mark(acks: set<Str>, msg: Str, who: Str): (set<Str>, bool)
  {
    (acks + {AckKey(msg, who)}, AckKey(msg, who) !in acks)
  }

  /** Marking ids one after the other, skipping empty ones; also the ids newly marked. */
  function MarkEach(acks: set<Str>, ids: seq<Str>, who: Str): (set<Str>, set<Str>)
  {
    if ids == [] then (acks, {})
    else
      var (before, new_) := MarkEach(acks, ids[..|ids| - 1], who);
      var id := ids[|ids| - 1];
      if id == [] then (before, new_)
      else
        var (after, fresh_) := Mark(before, id, who);
        (after, if fresh_ then new_ + {id} else new_)
  }

  ghost function KeysOf(ids: seq<Str>, who: Str): set<Str> { set id | id in ids && id != [] :: AckKey(id, who) }

  lemma KeysOfAppend(ids: seq<Str>, id: Str, who: Str)
    ensures KeysOf(ids + [id], who) == KeysOf(ids, who) + if id == [] then {} else {AckKey(id, who)}
  {
    forall k ensures k in KeysOf(ids + [id], who) <==> k in KeysOf(ids, who) || (id != [] && k == AckKey(id, who)) {
      if id != [] && k == AckKey(id, who) { assert id in ids + [id]; }
      if k in KeysOf(ids, who) {
        var x :| x in ids && x != [] && AckKey(x, who) == k;
        assert x in ids + [id];
      }
    }
  }

  ghost predicate AllNulFree(ids: seq<Str>) { forall id | id in ids :: NulFree(id) }

  /** The new key set, and the ids newly marked, whatever the order and the repeats. */
  lemma {:induction false} MarkEachResult(acks: set<Str>, ids: seq<Str>, who: Str)
    requires AllNulFree(ids)
    ensures MarkEach(acks, ids, who).0 == acks + KeysOf(ids, who)
    ensures MarkEach(acks, ids, who).1 == set id | id in ids && id != [] && AckKey(id, who) !in acks
  {
    if ids != [] {
      var rest, id := ids[..|ids| - 1], ids[|ids| - 1];
      assert ids == rest + [id];
      MarkEachResult(acks, rest, who);
      KeysOfAppend(rest, id, who);
      forall x | x in rest && x != [] ensures AckKey(x, who) == AckKey(id, who) <==> x == id {
        KeysIsolatePairs(x, who, id, who);
      }
    }
  }

  class AckStore {
    var acks: set<Str>

    constructor ()
      ensures acks == {}
    {
      acks := {};
    }

    /** Records one acknowledgement; true only when it was not there before, nothing when the
        transaction fails. */
    method MarkAcked(msg: Str, who: Str, commit: bool) returns (transitioned: Option<bool>)
      modifies this
      ensures transitioned.None? <==> !commit
      ensures transitioned.Some? ==> (acks, transitioned.value) == Mark(old(acks), msg, who)
      ensures transitioned.None? ==> acks == old(acks)
    {
      if !commit { return None; }
      if AckKey(msg, who) in acks {
        assert acks + {AckKey(msg, who)} == acks;
        return Some(false);
      }
      acks := acks + {AckKey(msg, who)};
      return Some(true);
    }

    /** One transaction for many ids: the same end state and the same newly marked ids as
        marking the non-empty ids one by one; a failed commit records nothing. */
    method MarkAckedBatch(ids: seq<Str>, who: Str, commit: bool) returns (transitioned: Option<set<Str>>)
      modifies this
      ensures transitioned.None? <==> ids != [] && !commit
      ensures transitioned.Some? ==> (acks, transitioned.value) == MarkEach(old(acks), ids, who)
      ensures transitioned.None? ==> acks == old(acks)
    {
      if |ids| == 0 { return Some({}); }
      var bucket, marked := acks, {};
      for i := 0 to |ids|
        invariant (bucket, marked) == MarkEach(old(acks), ids[..i], who)
      {
        assert ids[..i + 1][..|ids[..i + 1]| - 1] == ids[..i];
        if ids[i] != [] && AckKey(ids[i], who) !in bucket {
          bucket := bucket + {AckKey(ids[i], who)};
          marked := marked + {ids[i]};
        }
        assert ids[i] != [] && AckKey(ids[i], who) in MarkEach(old(acks), ids[..i], who).0 ==>
          bucket + {AckKey(ids[i], who)} == bucket;
      }
      assert ids[..|ids|] == ids;
      if !commit { return None; }
      acks := bucket;
      return Some(marked);
    }

    method IsAckedBy(msg: Str, who: Str, works: bool) returns (acked: Option<bool>)
      ensures acked == if works then Some(AckKey(msg, who) in acks) else None
    {
      if !works { return None; }
      acked := Some(AckKey(msg, who) in acks);
    }

    /** The ack part of `RemoveMessage`: a cursor walk over the message's key prefix. */
    method RemoveMessageAcks(msg: Str)
      modifies this
      ensures acks == set k | k in old(acks) && !HasPrefix(k, msg + [0])
    {
      hide Compare; hide Enumerate; hide Seek;
      var keys, prefix := Enumerate(acks), msg + [0];
      assert prefix + [] == prefix;
      var i := Seek(keys, prefix + []);
      ghost var lo := i;
      while i < |keys| && HasPrefix(keys[i], prefix)
        invariant lo <= i <= |keys|
        invariant forall k :: k in acks <==> k in old(acks) && k !in keys[lo..i]
        invariant forall k | k in keys[lo..i] :: HasPrefix(k, prefix)
      {
        assert keys[lo..i + 1] == keys[lo..i] + [keys[i]];
        acks := acks - {keys[i]};
        i := i + 1;
      }
      forall k | k in old(acks) && HasPrefix(k, prefix) ensures k in keys[lo..i] {
        var x := k[|prefix|..];
        assert k == prefix + x && k in Elements(keys);
        EmptyIsLeast(x);
        ScanIsComplete(keys, prefix, [], i, x);
      }
    }
  }

  /** Removing a message clears exactly that message's acknowledgements. */
  lemma RemoveClearsOneMessage(msg: Str, m: Str, who: Str)
    requires NulFree(msg) && NulFree(m)
    ensures HasPrefix(AckKey(m, who), msg + [0]) <==> m == msg
  {
    if HasPrefix(AckKey(m, who), msg + [0]) {
      var rest := AckKey(m, who)[|msg| + 1..];
      assert AckKey(m, who) == msg + [0] + rest;
      NulSeparated(m, who, msg, rest);
    }
    assert m == msg ==> (msg + [0]) + who == AckKey(m, who);
  }

  // ---- accounting

  /** The messages one identity has acknowledged. */
  ghost function AckedBy(acks: set<Str>, who: Str): set<Str>
  {
    set k | k in acks && IndexNul(k) >= 0 && k[IndexNul(k) + 1..] == who :: k[..IndexNul(k)]
  }

  lemma AckedByMeaning(acks: set<Str>, who: Str, m: Str)
    requires NulFree(m)
    ensures m in AckedBy(acks, who) <==> AckKey(m, who) in acks
  {
    hide IndexNul;
    var k := AckKey(m, who);
    IndexNulOfKey(m, who);
    assert k[..|m|] == m && k[|m| + 1..] == who;
    if m in AckedBy(acks, who) {
      var j :| j in acks && IndexNul(j) >= 0 && j[IndexNul(j) + 1..] == who && j[..IndexNul(j)] == m;
      NulAtIndex(j);
      assert j == j[..IndexNul(j)] + [0] + j[IndexNul(j) + 1..];
    }
  }

  lemma {:induction false} NulAtIndex(s: Str)
    requires IndexNul(s) >= 0
    ensures s[IndexNul(s)] == 0
  {
    if s[0] != 0 { NulAtIndex(s[1..]); }
  }

  lemma {:induction false} NulFreeBefore(s: Str)
    requires IndexNul(s) >= 0
    ensures NulFree(s[..IndexNul(s)])
  {
    if s[0] != 0 {
      NulFreeBefore(s[1..]);
      assert s[..IndexNul(s)] == [s[0]] + s[1..][..IndexNul(s[1..])];
    }
  }

  lemma AckedByNulFree(acks: set<Str>, who: Str)
    ensures forall m | m in AckedBy(acks, who) :: NulFree(m)
  {
    forall m | m in AckedBy(acks, who) ensures NulFree(m) {
      var k :| k in acks && IndexNul(k) >= 0 && k[IndexNul(k) + 1..] == who && k[..IndexNul(k)] == m;
      NulFreeBefore(k);
    }
  }

  /** `handleReceipt` counts the listed ids that were newly marked. */
  function CountMarked(ids: seq<Str>, marked: set<Str>): nat
  {
    if ids == [] then 0 else (if ids[0] in marked then 1 else 0) + CountMarked(ids[1..], marked)
  }

  lemma {:induction false} CountIsSize(ids: seq<Str>, marked: set<Str>)
    requires Distinct(ids)
    ensures CountMarked(ids, marked) == |marked * Elements(ids)|
  {
    if ids == [] {
      assert marked * Elements(ids) == {};
    } else {
      HeadAndTail(ids);
      hide Distinct; hide Elements;
      CountIsSize(ids[1..], marked);
      var rest := Elements(ids[1..]);
      if ids[0] in marked {
        assert marked * Elements(ids) == marked * rest + {ids[0]};
      } else {
        assert marked * Elements(ids) == marked * rest;
      }
    }
  }

  lemma HeadAndTail(ids: seq<Str>)
    requires Distinct(ids) && ids != []
    ensures Elements(ids) == Elements(ids[1..]) + {ids[0]} && ids[0] !in Elements(ids[1..]) && Distinct(ids[1..])
  {
    assert ids == [ids[0]] + ids[1..];
  }

  /** One receipt raises the count by exactly the growth of the identity's acked messages, and
      leaves every other identity's alone. */
  lemma ReceiptAccounting(acks: set<Str>, ids: seq<Str>, who: Str, other: Str)
    requires AllNulFree(ids) && Distinct(ids) && [] !in ids
    ensures var (acks', marked) := MarkEach(acks, ids, who);
            && AckedBy(acks', who) == AckedBy(acks, who) + Elements(ids)
            && CountMarked(ids, marked) == |AckedBy(acks', who)| - |AckedBy(acks, who)|
            && (other != who ==> AckedBy(acks', other) == AckedBy(acks, other))
  {
    hide MarkEach; hide AckedBy; hide CountMarked;
    var (acks', marked) := MarkEach(acks, ids, who);
    MarkEachResult(acks, ids, who);
    AckedAfter(acks, ids, who, who);
    if other != who { AckedAfter(acks, ids, who, other); }
    forall id | id in ids ensures id in marked <==> id !in AckedBy(acks, who) { AckedByMeaning(acks, who, id); }
    assert marked == Elements(ids) - AckedBy(acks, who);
    CountIsSize(ids, marked);
    assert marked * Elements(ids) == marked;
    assert AckedBy(acks', who) == AckedBy(acks, who) + marked;
  }

  lemma AckedAfter(acks: set<Str>, ids: seq<Str>, who: Str, x: Str)
    requires AllNulFree(ids) && [] !in ids
    ensures AckedBy(acks + KeysOf(ids, who), x) ==
            if x == who then AckedBy(acks, x) + Elements(ids) else AckedBy(acks, x)
  {
    hide AckedBy; hide IndexNul;
    var acks' := acks + KeysOf(ids, who);
    AckedByNulFree(acks, x); AckedByNulFree(acks', x);
    forall m ensures m in AckedBy(acks', x) <==> m in AckedBy(acks, x) || (x == who && m in ids) {
      if NulFree(m) {
        AckedByMeaning(acks, x, m); AckedByMeaning(acks', x, m);
        if x == who && m in ids { assert AckKey(m, who) in KeysOf(ids, who); }
        if AckKey(m, x) in KeysOf(ids, who) {
          var id :| id in ids && id != [] && AckKey(id, who) == AckKey(m, x);
          KeysIsolatePairs(id, who, m, x);
        }
      }
    }
  }

  datatype Receipt = Receipt(who: Str, ids: seq<Str>)

  ghost predicate Sensible(r: Receipt) { AllNulFree(r.ids) && Distinct(r.ids) && [] !in r.ids }

  function AcksAfter(acks: set<Str>, run: seq<Receipt>): set<Str>
    decreases |run|
  {
    if run == [] then acks else AcksAfter(MarkEach(acks, run[0].ids, run[0].who).0, run[1..])
  }

  /** The acknowledgements one identity's sessions report, added up over a run. */
  function Reported(acks: set<Str>, run: seq<Receipt>, who: Str): nat
    decreases |run|
  {
    if run == [] then 0
    else
      var (acks', marked) := MarkEach(acks, run[0].ids, run[0].who);
      (if run[0].who == who then CountMarked(run[0].ids, marked) else 0) + Reported(acks', run[1..], who)
  }

  /** Over any interleaving of sessions, what an identity's sessions report adds up to the
      number of distinct messages it came to acknowledge. */
  lemma {:induction false} AccountingBalances(acks: set<Str>, run: seq<Receipt>, who: Str)
    requires forall i | 0 <= i < |run| :: Sensible(run[i])
    ensures Reported(acks, run, who) == |AckedBy(AcksAfter(acks, run), who)| - |AckedBy(acks, who)|
    decreases |run|
  {
    hide AckedBy; hide MarkEach; hide CountMarked;
    if run != [] {
      assert Sensible(run[0]);
      ReceiptAccounting(acks, run[0].ids, run[0].who, who);
      AccountingBalances(MarkEach(acks, run[0].ids, run[0].who).0, run[1..], who);
    }
  }

  /** Without the parser's duplicate check the reported count would be too high. */
  lemma DuplicateReceiptOvercounts(id: Str, who: Str)
    requires id != [] && NulFree(id)
    ensures var (acks', marked) := MarkEach({}, [id, id], who);
            CountMarked([id, id], marked) == 2 && |AckedBy(acks', who)| == 1
  {
    var marked := MarkEach({}, [id, id], who).1;
    MarkEachResult({}, [id, id], who);
    assert marked == {id};
    var one, two := [id], [id, id];
    assert one[1..] == [] && two[1..] == one;
    assert CountMarked(one, marked) == 1;
    assert CountMarked(two, marked) == 2;
    AckedAfter({}, [id, id], who, who);
    assert AckedBy({}, who) == {};
    assert Elements([id, id]) == {id};
  }
}
