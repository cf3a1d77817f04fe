/** TRANSFER parsing: every object is accepted or rejected on its own
    (`ParseTransferPayloadMixed`, `parseTransferObject` in internal/gossipv1/protocol.go). */
module Transfer {
  import opened ByteStrings
  import opened GossipLimits
  import opened Ordered
  import opened Digest
  import opened Bloom
  import opened Protocol
  import Base64Url

  datatype TransferObject = TransferObject(
    itemId: Str, envelopeB64: Str, expiryMs: nat, hopCount: nat, envelope: ItemEnvelope)

  datatype Reason =
    | UnknownParseError | MissingItemId | InvalidItemId | MissingEnvelope | InvalidEnvelopeEncoding
    | InvalidExpiry | InvalidHopCount | PolicyReject | DuplicateItem

  datatype ObjectResult = Parsed(item: TransferObject) | Refused(reason: Reason)

  const OBJECT_FIELDS := {"item_id", "envelope_b64", "expiry_unix_ms", "hop_count"}
  const MAX_HOPS: nat := 65535

  /** Unpadded, strict, and neither empty before nor after decoding. */
  function DecodeRaw(text: Str): (r: Option<Str>)
    ensures r.Some? ==> r.value != []
  {
    if text == [] || Base64Url.PAD in text then None
    else
      var b := Base64Url.Decode(text, true);
      if b.None? || b.value == [] then None else b
  }

  /** `item_id` is the lowercase hex SHA-256 of the envelope bytes. */
  function ItemIdOf(w: World, bytes: Str): Str { HexEncode(w.sha(bytes)) }

  function ParseObject(w: World, p: Payload): ObjectResult
  {
    if !OnlyFields(p, OBJECT_FIELDS) then Refused(UnknownParseError) else
    var id := ParseText(p, "item_id");
    if id.None? then Refused(if "item_id" in p then InvalidItemId else MissingItemId) else
    if !IsDigest(id.value) then Refused(InvalidItemId) else
    var b64 := ParseText(p, "envelope_b64");
    if b64.None? then Refused(if "envelope_b64" in p then InvalidEnvelopeEncoding else MissingEnvelope) else
    var bytes := DecodeRaw(b64.value);
    if bytes.None? || !w.canonical(bytes.value) then Refused(InvalidEnvelopeEncoding) else
    var content := w.parseItem(bytes.value);
    if content.None? then Refused(PolicyReject) else
    var expiry, hops := ParseUint(p, "expiry_unix_ms"), ParseUint(p, "hop_count");
    if expiry.None? then Refused(InvalidExpiry) else
    if hops.None? || hops.value > MAX_HOPS then Refused(InvalidHopCount) else
    if ItemIdOf(w, bytes.value) != id.value then Refused(InvalidItemId)
    else Parsed(TransferObject(id.value, b64.value, expiry.value, hops.value, content.value))
  }

  /** What a parsed object satisfies. */
  predicate Genuine(w: World, o: TransferObject)
  {
    && IsDigest(o.itemId) && o.hopCount <= MAX_HOPS
    && DecodeRaw(o.envelopeB64).Some?
    && w.canonical(DecodeRaw(o.envelopeB64).value)
    && w.parseItem(DecodeRaw(o.envelopeB64).value) == Some(o.envelope)
    && o.itemId == ItemIdOf(w, DecodeRaw(o.envelopeB64).value)
  }

  function ObjectPayload(o: TransferObject): Payload
  {
    map["item_id" := Text(o.itemId), "envelope_b64" := Text(o.envelopeB64),
        "expiry_unix_ms" := UInt(o.expiryMs), "hop_count" := UInt(o.hopCount)]
  }

  /** Parsing succeeds exactly on the wire forms of genuine objects. */
  lemma ObjectParses(w: World, p: Payload, o: TransferObject)
    ensures ParseObject(w, p).Parsed? ==>
              Genuine(w, ParseObject(w, p).item) && ObjectPayload(ParseObject(w, p).item) == p
    ensures Genuine(w, o) ==> ParseObject(w, ObjectPayload(o)) == Parsed(o)
  {
    hide IsDigest; hide DigestBytes; hide DecodeRaw; hide HexEncode;
    if ParseObject(w, p).Parsed? {
      assert p.Keys == OBJECT_FIELDS;
    }
    if Genuine(w, o) {
      assert !IsDigest([]) by { EmptyIsNoDigest(); }
      assert o.envelopeB64 != [] by { EmptyDecodesToNothing(); }
    }
  }

  lemma EmptyIsNoDigest()
    ensures !IsDigest([])
  {
  }

  lemma EmptyDecodesToNothing()
    ensures DecodeRaw([]) == None
  {
  }

  // ---- a whole frame

  datatype Indexed = Indexed(index: nat, item: TransferObject)
  datatype Rejection = Rejection(index: nat, reason: Reason)
  datatype ParsedTransfer = ParsedTransfer(objects: seq<Indexed>, rejected: seq<Rejection>)

  function ObjectAt(w: World, v: Value): ObjectResult
  {
    if v.Dict? then ParseObject(w, v.fields) else Refused(UnknownParseError)
  }

  function SizeOf(w: World, v: Value): nat
  {
    var r := ObjectAt(w, v);
    if r.Parsed? && DecodeRaw(r.item.envelopeB64).Some? then |DecodeRaw(r.item.envelopeB64).value| else 0
  }

  /** Envelope bytes of the well-formed objects among the first `n`, kept or not. */
  function BytesBefore(w: World, vs: seq<Value>, n: nat): nat
    requires n <= |vs|
  {
    if n == 0 then 0 else BytesBefore(w, vs, n - 1) + SizeOf(w, vs[n - 1])
  }

  predicate WellFormedAt(w: World, vs: seq<Value>, i: nat)
    requires i < |vs|
  {
    ObjectAt(w, vs[i]).Parsed?
  }

  function IdAt(w: World, vs: seq<Value>, i: nat): Str
    requires i < |vs| && WellFormedAt(w, vs, i)
  {
    ObjectAt(w, vs[i]).item.itemId
  }

  /** The acceptance rule: well-formed, the running byte total within the budget, and the first
      well-formed object with its id. */
  predicate AcceptedAt(w: World, vs: seq<Value>, i: nat)
    requires i < |vs|
  {
    && WellFormedAt(w, vs, i)
    && BytesBefore(w, vs, i + 1) <= MAX_TRANSFER_BYTES
    && !exists j: nat | j < i :: WellFormedAt(w, vs, j) && IdAt(w, vs, j) == IdAt(w, vs, i)
  }

  /** Why an object that is not accepted is rejected: malformed before oversize before repeated. */
  function RejectionReason(w: World, vs: seq<Value>, i: nat): Reason
    requires i < |vs|
  {
    if !WellFormedAt(w, vs, i) then ObjectAt(w, vs[i]).reason
    else if BytesBefore(w, vs, i + 1) > MAX_TRANSFER_BYTES then PolicyReject
    else DuplicateItem
  }

  function Objects(w: World, vs: seq<Value>, n: nat): seq<Indexed>
    requires n <= |vs|
  {
    if n == 0 then [] else
    Objects(w, vs, n - 1) + if AcceptedAt(w, vs, n - 1) then [Indexed(n - 1, ObjectAt(w, vs[n - 1]).item)] else []
  }

  function Rejections(w: World, vs: seq<Value>, n: nat): seq<Rejection>
    requires n <= |vs|
  {
    if n == 0 then [] else
    Rejections(w, vs, n - 1)
    + if AcceptedAt(w, vs, n - 1) then [] else [Rejection(n - 1, RejectionReason(w, vs, n - 1))]
  }

  /** The parse of an object list: every index sorted by the rule, in order. */
  function ParseList(w: World, vs: seq<Value>): ParsedTransfer
  {
    ParsedTransfer(Objects(w, vs, |vs|), Rejections(w, vs, |vs|))
  }

  /** The lists hold exactly the accepted and the other indices, ascending. */
  ghost predicate IndicesAre(objects: seq<Indexed>, rejected: seq<Rejection>, w: World, vs: seq<Value>, n: nat)
    requires n <= |vs|
  {
    && (forall a, b | 0 <= a < b < |objects| :: objects[a].index < objects[b].index)
    && (forall a, b | 0 <= a < b < |rejected| :: rejected[a].index < rejected[b].index)
    && (forall a | 0 <= a < |objects| :: objects[a].index < n && AcceptedAt(w, vs, objects[a].index)
                                         && objects[a].item == ObjectAt(w, vs[objects[a].index]).item)
    && (forall a | 0 <= a < |rejected| :: rejected[a].index < n && !AcceptedAt(w, vs, rejected[a].index)
                                          && rejected[a].reason == RejectionReason(w, vs, rejected[a].index))
    && (forall i: nat | i < n ::
          if AcceptedAt(w, vs, i) then exists a | 0 <= a < |objects| :: objects[a].index == i
          else exists a | 0 <= a < |rejected| :: rejected[a].index == i)
  }

  lemma {:induction false} BytesGrow(w: World, vs: seq<Value>, m: nat, n: nat)
    requires m <= n <= |vs|
    ensures BytesBefore(w, vs, m) <= BytesBefore(w, vs, n)
  {
    if m < n { BytesGrow(w, vs, m, n - 1); }
  }

  /** One pass with a running byte total and the set of ids kept so far. */
  method ParseObjects(w: World, vs: seq<Value>) returns (r: ParsedTransfer)
    ensures r == ParseList(w, vs)
  {
    hide ObjectAt; hide DecodeRaw;
    var objects: seq<Indexed>, rejected: seq<Rejection> := [], [];
    var seen: set<Str>, total := {}, 0;
    for i := 0 to |vs|
      invariant objects == Objects(w, vs, i) && rejected == Rejections(w, vs, i)
      invariant total == BytesBefore(w, vs, i)
      invariant forall id :: id in seen <==> exists j: nat | j < i :: AcceptedAt(w, vs, j) && IdAt(w, vs, j) == id
    {
      var result := ObjectAt(w, vs[i]);
      if result.Refused? {
        SizeOfRefused(w, vs[i]);
        rejected := rejected + [Rejection(i, result.reason)];
      } else {
        var item := result.item;
        ParsedDecodes(w, vs[i]);
        var bytes := DecodeRaw(item.envelopeB64).value;
        total := total + |bytes|;
        SeenMeansEarlier(w, vs, i);
        if total > MAX_TRANSFER_BYTES {
          rejected := rejected + [Rejection(i, PolicyReject)];
        } else if item.itemId in seen {
          rejected := rejected + [Rejection(i, DuplicateItem)];
        } else {
          seen := seen + {item.itemId};
          objects := objects + [Indexed(i, item)];
        }
      }
    }
    r := ParsedTransfer(objects, rejected);
  }

  lemma SizeOfRefused(w: World, v: Value)
    requires ObjectAt(w, v).Refused?
    ensures SizeOf(w, v) == 0
  {
  }

  lemma {:induction false} ListsHoldIndices(w: World, vs: seq<Value>, n: nat)
    requires n <= |vs|
    ensures IndicesAre(Objects(w, vs, n), Rejections(w, vs, n), w, vs, n)
  {
    hide AcceptedAt; hide ObjectAt; hide RejectionReason; hide IndicesAre;
    if n == 0 {
      NoIndices(w, vs);
    } else {
      ListsHoldIndices(w, vs, n - 1);
      Extend(Objects(w, vs, n - 1), Rejections(w, vs, n - 1), w, vs, n - 1);
      assert Objects(w, vs, n - 1) + [] == Objects(w, vs, n - 1);
      assert Rejections(w, vs, n - 1) + [] == Rejections(w, vs, n - 1);
    }
  }

  lemma NoIndices(w: World, vs: seq<Value>)
    ensures IndicesAre([], [], w, vs, 0)
  {
  }

  lemma ParsedDecodes(w: World, v: Value)
    requires ObjectAt(w, v).Parsed?
    ensures DecodeRaw(ObjectAt(w, v).item.envelopeB64).Some?
    ensures SizeOf(w, v) == |DecodeRaw(ObjectAt(w, v).item.envelopeB64).value|
  {
    hide DecodeRaw; hide IsDigest;
    ObjectParses(w, v.fields, ObjectAt(w, v).item);
  }

  /** Within the budget, an id already accepted is an id already seen well-formed. */
  lemma SeenMeansEarlier(w: World, vs: seq<Value>, i: nat)
    requires i < |vs| && WellFormedAt(w, vs, i)
    ensures BytesBefore(w, vs, i + 1) <= MAX_TRANSFER_BYTES ==>
              ((exists j: nat | j < i :: AcceptedAt(w, vs, j) && IdAt(w, vs, j) == IdAt(w, vs, i)) <==>
               (exists j: nat | j < i :: WellFormedAt(w, vs, j) && IdAt(w, vs, j) == IdAt(w, vs, i)))
  {
    hide ObjectAt; hide WellFormedAt;
    if BytesBefore(w, vs, i + 1) <= MAX_TRANSFER_BYTES {
      if j: nat :| j < i && WellFormedAt(w, vs, j) && IdAt(w, vs, j) == IdAt(w, vs, i) {
        var k := FirstWithId(w, vs, j);
        BytesGrow(w, vs, k + 1, i + 1);
      }
    }
  }

  lemma {:induction false} FirstWithId(w: World, vs: seq<Value>, j: nat) returns (k: nat)
    requires j < |vs| && WellFormedAt(w, vs, j)
    ensures k <= j && WellFormedAt(w, vs, k) && IdAt(w, vs, k) == IdAt(w, vs, j)
    ensures !exists i: nat | i < k :: WellFormedAt(w, vs, i) && IdAt(w, vs, i) == IdAt(w, vs, k)
  {
    hide ObjectAt; hide WellFormedAt;
    if i: nat :| i < j && WellFormedAt(w, vs, i) && IdAt(w, vs, i) == IdAt(w, vs, j) {
      k := FirstWithId(w, vs, i);
    } else {
      k := j;
    }
  }

  lemma Extend(objects: seq<Indexed>, rejected: seq<Rejection>, w: World, vs: seq<Value>, i: nat)
    requires i < |vs| && IndicesAre(objects, rejected, w, vs, i)
    ensures AcceptedAt(w, vs, i) ==>
              IndicesAre(objects + [Indexed(i, ObjectAt(w, vs[i]).item)], rejected, w, vs, i + 1)
    ensures !AcceptedAt(w, vs, i) ==>
              IndicesAre(objects, rejected + [Rejection(i, RejectionReason(w, vs, i))], w, vs, i + 1)
  {
    hide ObjectAt; hide IndicesAre;
    if AcceptedAt(w, vs, i) {
      ExtendAccepted(objects, rejected, w, vs, i);
    } else {
      ExtendRejected(objects, rejected, w, vs, i);
    }
  }

  lemma ExtendAccepted(objects: seq<Indexed>, rejected: seq<Rejection>, w: World, vs: seq<Value>, i: nat)
    requires i < |vs| && IndicesAre(objects, rejected, w, vs, i) && AcceptedAt(w, vs, i) && WellFormedAt(w, vs, i)
    ensures IndicesAre(objects + [Indexed(i, ObjectAt(w, vs[i]).item)], rejected, w, vs, i + 1)
  {
    hide AcceptedAt; hide ObjectAt; hide RejectionReason;
    var more := objects + [Indexed(i, ObjectAt(w, vs[i]).item)];
    forall k: nat | k < i + 1 ensures
      if AcceptedAt(w, vs, k) then exists a | 0 <= a < |more| :: more[a].index == k
      else exists a | 0 <= a < |rejected| :: rejected[a].index == k
    {
      if k == i { assert more[|objects|].index == k; }
      else if AcceptedAt(w, vs, k) {
        var a :| 0 <= a < |objects| && objects[a].index == k;
        assert more[a].index == k;
      }
    }
  }

  lemma ExtendRejected(objects: seq<Indexed>, rejected: seq<Rejection>, w: World, vs: seq<Value>, i: nat)
    requires i < |vs| && IndicesAre(objects, rejected, w, vs, i) && !AcceptedAt(w, vs, i)
    ensures IndicesAre(objects, rejected + [Rejection(i, RejectionReason(w, vs, i))], w, vs, i + 1)
  {
    hide AcceptedAt; hide ObjectAt; hide RejectionReason;
    var more := rejected + [Rejection(i, RejectionReason(w, vs, i))];
    forall k: nat | k < i + 1 ensures
      if AcceptedAt(w, vs, k) then exists a | 0 <= a < |objects| :: objects[a].index == k
      else exists a | 0 <= a < |more| :: more[a].index == k
    {
      if k == i { assert more[|rejected|].index == k; }
      else if !AcceptedAt(w, vs, k) {
        var a :| 0 <= a < |rejected| && rejected[a].index == k;
        assert more[a].index == k;
      }
    }
  }

  // ---- what acceptance guarantees

  function AcceptedBytes(objects: seq<Indexed>): nat
  {
    if objects == [] then 0
    else
      var o := objects[|objects| - 1].item;
      AcceptedBytes(objects[..|objects| - 1])
      + if DecodeRaw(o.envelopeB64).Some? then |DecodeRaw(o.envelopeB64).value| else 0
  }

  /** Accepted and rejected indices partition the frame, accepted ids are pairwise distinct and
      each the hash of its own bytes, and the accepted bytes keep to the budget, whatever is
      interleaved. */
  lemma TransferPartition(w: World, vs: seq<Value>, r: ParsedTransfer)
    requires r == ParseList(w, vs)
    ensures IndicesAre(r.objects, r.rejected, w, vs, |vs|)
    ensures |r.objects| + |r.rejected| == |vs|
    ensures forall a, b | 0 <= a < |r.objects| && 0 <= b < |r.rejected| :: r.objects[a].index != r.rejected[b].index
    ensures forall a, b | 0 <= a < b < |r.objects| :: r.objects[a].item.itemId != r.objects[b].item.itemId
    ensures forall a | 0 <= a < |r.objects| :: Genuine(w, r.objects[a].item)
    ensures AcceptedBytes(r.objects) <= MAX_TRANSFER_BYTES
  {
    hide ObjectAt; hide DecodeRaw; hide Genuine; hide Objects; hide Rejections; hide IndicesAre;
    ListsHoldIndices(w, vs, |vs|);
    PartitionCounts(w, vs, r);
    PartitionDisjoint(w, vs, r);
    AcceptedDistinct(w, vs, r);
    AcceptedGenuine(w, vs, r);
    AcceptedWithinBudget(w, vs, r);
  }

  lemma PartitionDisjoint(w: World, vs: seq<Value>, r: ParsedTransfer)
    requires IndicesAre(r.objects, r.rejected, w, vs, |vs|)
    ensures forall a, b | 0 <= a < |r.objects| && 0 <= b < |r.rejected| :: r.objects[a].index != r.rejected[b].index
  {
    hide AcceptedAt; hide ObjectAt; hide RejectionReason;
  }

  lemma AcceptedDistinct(w: World, vs: seq<Value>, r: ParsedTransfer)
    requires IndicesAre(r.objects, r.rejected, w, vs, |vs|)
    ensures forall a, b | 0 <= a < b < |r.objects| :: r.objects[a].item.itemId != r.objects[b].item.itemId
  {
    hide ObjectAt; hide RejectionReason; hide BytesBefore;
    forall a, b | 0 <= a < b < |r.objects| ensures r.objects[a].item.itemId != r.objects[b].item.itemId {
      var i, j := r.objects[a].index, r.objects[b].index;
      assert AcceptedAt(w, vs, i) && AcceptedAt(w, vs, j) && i < j;
      assert IdAt(w, vs, i) == r.objects[a].item.itemId && IdAt(w, vs, j) == r.objects[b].item.itemId;
    }
  }

  lemma AcceptedGenuine(w: World, vs: seq<Value>, r: ParsedTransfer)
    requires IndicesAre(r.objects, r.rejected, w, vs, |vs|)
    ensures forall a | 0 <= a < |r.objects| :: Genuine(w, r.objects[a].item)
  {
    hide ParseObject; hide Genuine; hide RejectionReason; hide BytesBefore;
    forall a | 0 <= a < |r.objects| ensures Genuine(w, r.objects[a].item) {
      var i := r.objects[a].index;
      assert AcceptedAt(w, vs, i) && WellFormedAt(w, vs, i);
      ObjectParses(w, vs[i].fields, r.objects[a].item);
    }
  }

  lemma AcceptedWithinBudget(w: World, vs: seq<Value>, r: ParsedTransfer)
    requires IndicesAre(r.objects, r.rejected, w, vs, |vs|)
    ensures AcceptedBytes(r.objects) <= MAX_TRANSFER_BYTES
  {
    hide ObjectAt; hide RejectionReason; hide BytesBefore; hide DecodeRaw;
    if r.objects != [] {
      AcceptedBytesBound(w, vs, r.objects);
      assert AcceptedAt(w, vs, r.objects[|r.objects| - 1].index);
    }
  }

  lemma PartitionCounts(w: World, vs: seq<Value>, r: ParsedTransfer)
    requires IndicesAre(r.objects, r.rejected, w, vs, |vs|)
    ensures |r.objects| + |r.rejected| == |vs|
  {
    hide AcceptedAt; hide ObjectAt; hide RejectionReason;
    var a := set i: nat | i < |vs| && AcceptedAt(w, vs, i);
    var b := set i: nat | i < |vs| && !AcceptedAt(w, vs, i);
    ObjectIndices(w, vs, r, a);
    RejectionIndices(w, vs, r, b);
    assert a + b == Range(|vs|);
    assert |a + b| == |a| + |b|;
  }

  ghost function Range(n: nat): (s: set<nat>)
    ensures forall i: nat :: i in s <==> i < n
    ensures |s| == n
  {
    if n == 0 then {} else Range(n - 1) + {n - 1}
  }

  lemma ObjectIndices(w: World, vs: seq<Value>, r: ParsedTransfer, a: set<nat>)
    requires IndicesAre(r.objects, r.rejected, w, vs, |vs|) && a == set i: nat | i < |vs| && AcceptedAt(w, vs, i)
    ensures |a| == |r.objects|
  {
    hide AcceptedAt; hide ObjectAt; hide RejectionReason;
    var s := seq(|r.objects|, k requires 0 <= k < |r.objects| => r.objects[k].index);
    assert Distinct(s);
    DistinctCount(s);
    forall i ensures i in a <==> i in Elements(s) {
      if i in a { var k :| 0 <= k < |r.objects| && r.objects[k].index == i; assert s[k] == i; }
    }
    assert a == Elements(s);
  }

  lemma RejectionIndices(w: World, vs: seq<Value>, r: ParsedTransfer, b: set<nat>)
    requires IndicesAre(r.objects, r.rejected, w, vs, |vs|) && b == set i: nat | i < |vs| && !AcceptedAt(w, vs, i)
    ensures |b| == |r.rejected|
  {
    hide AcceptedAt; hide ObjectAt; hide RejectionReason;
    var s := seq(|r.rejected|, k requires 0 <= k < |r.rejected| => r.rejected[k].index);
    assert Distinct(s);
    DistinctCount(s);
    forall i ensures i in b <==> i in Elements(s) {
      if i in b { var k :| 0 <= k < |r.rejected| && r.rejected[k].index == i; assert s[k] == i; }
    }
    assert b == Elements(s);
  }

  lemma {:induction false} AcceptedBytesBound(w: World, vs: seq<Value>, objects: seq<Indexed>)
    requires objects != []
    requires forall a, b | 0 <= a < b < |objects| :: objects[a].index < objects[b].index
    requires forall a | 0 <= a < |objects| :: objects[a].index < |vs| && WellFormedAt(w, vs, objects[a].index)
                                             && objects[a].item == ObjectAt(w, vs[objects[a].index]).item
    ensures AcceptedBytes(objects) <= BytesBefore(w, vs, objects[|objects| - 1].index + 1)
  {
    hide ParseObject; hide DecodeRaw;
    var n := |objects| - 1;
    var last := objects[n].index;
    ParsedDecodes(w, vs[last]);
    if n > 0 {
      AcceptedBytesBound(w, vs, objects[..n]);
      BytesGrow(w, vs, objects[n - 1].index + 1, last);
    }
  }

  /** The frame itself: one field, an array, at most 32 entries. */
  function TransferItems(p: Payload): Option<seq<Value>>
  {
    if !OnlyFields(p, {"objects"}) || "objects" !in p then None
    else
      var vs := CoerceSlice(p["objects"]);
      if vs.None? || |vs.value| > MAX_TRANSFER then None else vs
  }

  function TransferPayload(objects: seq<TransferObject>): Payload
  {
    map["objects" := Arr(seq(|objects|, i requires 0 <= i < |objects| => Dict(ObjectPayload(objects[i]))))]
  }

  /** A transfer frame is exactly one list of at most 32 entries; anything else is fatal. */
  lemma TransferFrameMeans(p: Payload, vs: seq<Value>)
    ensures TransferItems(p) == Some(vs) <==>
              p.Keys == {"objects"} && CoerceSlice(p["objects"]) == Some(vs) && |vs| <= MAX_TRANSFER
  {
  }

  /** Why an object is refused: the first of its faults, in this order. */
  lemma RefusalMeans(w: World, p: Payload)
    ensures var r := ParseObject(w, p);
            var id, b64 := ParseText(p, "item_id"), ParseText(p, "envelope_b64");
            if !(p.Keys <= OBJECT_FIELDS) then r == Refused(UnknownParseError)
            else if "item_id" !in p then r == Refused(MissingItemId)
            else if id.None? || !IsDigest(id.value) then r == Refused(InvalidItemId)
            else if "envelope_b64" !in p then r == Refused(MissingEnvelope)
            else if b64.None? || DecodeRaw(b64.value).None? || !w.canonical(DecodeRaw(b64.value).value) then
              r == Refused(InvalidEnvelopeEncoding)
            else if w.parseItem(DecodeRaw(b64.value).value).None? then r == Refused(PolicyReject)
            else if !("expiry_unix_ms" in p && p["expiry_unix_ms"].UInt?) then r == Refused(InvalidExpiry)
            else if !("hop_count" in p && p["hop_count"].UInt? && p["hop_count"].n <= MAX_HOPS) then
              r == Refused(InvalidHopCount)
            else (r == Refused(InvalidItemId) <==> id.value != ItemIdOf(w, DecodeRaw(b64.value).value))
                 && (r.Parsed? <==> id.value == ItemIdOf(w, DecodeRaw(b64.value).value))
  {
    hide IsDigest; hide DecodeRaw; hide ItemIdOf;
  }

  /** Raw text is refused when empty, padded, not base64url, or of no bytes; canonical text is not. */
  lemma RawTextMeans(text: Str, bytes: Str)
    ensures DecodeRaw(text) == Some(bytes) <==>
              text != [] && Base64Url.PAD !in text && Base64Url.Decode(text, true) == Some(bytes) && bytes != []
  {
    hide Base64Url.Decode;
  }
}
