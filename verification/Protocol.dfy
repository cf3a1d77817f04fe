/** Gossip V1 payloads: the parsers and builders of internal/gossipv1/protocol.go, on decoded
    CBOR values. CBOR, SHA-256 and the signed item envelope's parser are parameters. */
module Protocol {
  import opened ByteStrings
  import opened GossipLimits
  import opened Ordered
  import opened Digest
  import opened Bloom
  import Base64Url

  /** A decoded CBOR value, as far as the parsers tell values apart. */
  datatype Value =
    | Null
    | UInt(n: nat)
    | Text(s: Str)
    | Blob(b: Str)
    | Arr(items: seq<Value>)
    | Dict(fields: map<string, Value>)
    | Other

  type Payload = map<string, Value>

  datatype Frame = Frame(kind: string, payload: Payload)

  /** The signed content of an item, once its signature checked out. */
  datatype ItemEnvelope = ItemEnvelope(from: Str, to: Str, payloadB64: Str, createdAt: int, expiresAt: int)

  /** Code outside this repository that the protocol calls. */
  datatype World = World(
    sha: Hash,
    unmarshal: Str -> Option<Frame>,
    marshal: Frame -> Str,
    canonical: Str -> bool,
    parseItem: Str -> Option<ItemEnvelope>)

  // ---- fields

  function Field(p: Payload, key: string): Option<Value> { if key in p then Some(p[key]) else None }

  predicate OnlyFields(p: Payload, allowed: set<string>) { p.Keys <= allowed }

  function ParseText(p: Payload, key: string): Option<Str>
  {
    if key in p && p[key].Text? && p[key].s != [] then Some(p[key].s) else None
  }

  function ParseUint(p: Payload, key: string): Option<nat>
  {
    if key in p && p[key].UInt? then Some(p[key].n) else None
  }

  /** Byte strings; an empty array also reads as no bytes. */
  function ParseBytes(p: Payload, key: string): Option<Str>
  {
    if key !in p then None
    else match p[key]
      case Blob(b) => Some(b)
      case Arr(items) => if items == [] then Some([]) else None
      case _ => None
  }

  /** Arrays; a byte string also reads as an array of small integers. */
  function CoerceSlice(v: Value): Option<seq<Value>>
  {
    match v
    case Arr(items) => Some(items)
    case Blob(b) => Some(seq(|b|, i requires 0 <= i < |b| => UInt(b[i])))
    case _ => None
  }

  function ParseTextsOf(items: seq<Value>): Option<seq<Str>>
  {
    if items == [] then Some([])
    else
      var rest := ParseTextsOf(items[1..]);
      if items[0].Text? && items[0].s != [] && rest.Some? then Some([items[0].s] + rest.value) else None
  }

  function ParseTexts(p: Payload, key: string): Option<seq<Str>>
  {
    if key !in p then None
    else
      var items := CoerceSlice(p[key]);
      if items.None? then None else ParseTextsOf(items.value)
  }

  function Texts(ids: seq<Str>): Value { Arr(seq(|ids|, i requires 0 <= i < |ids| => Text(ids[i]))) }

  lemma {:induction false} TextsParse(ids: seq<Str>)
    requires [] !in ids
    ensures ParseTextsOf(Texts(ids).items) == Some(ids)
  {
    if ids != [] {
      TextsParse(ids[1..]);
      assert Texts(ids).items[1..] == Texts(ids[1..]).items;
      assert ids == [ids[0]] + ids[1..];
    }
  }

  lemma {:induction false} ParsedTextsNonEmpty(items: seq<Value>)
    requires ParseTextsOf(items).Some?
    ensures [] !in ParseTextsOf(items).value
  {
    if items != [] { ParsedTextsNonEmpty(items[1..]); }
  }

  predicate SortedDigests(ids: seq<Str>) { AllDigests(ids) && Sorted(ids) }

  // ---- HELLO

  datatype Hello = Hello(
    version: nat, nodeId: Str, nodePubKey: Str, capabilities: seq<Str>, propagationClass: Str,
    maxWant: nat, maxTransfer: nat)

  predicate ValidHello(w: World, h: Hello)
  {
    && h.version == 1
    && |h.nodeId| == 64 && h.nodeId == ToLower(h.nodeId)
    && Base64Url.Decode(h.nodePubKey, false).Some?
    && h.nodeId == HexEncode(w.sha(Base64Url.Decode(h.nodePubKey, false).value))
    && 0 < h.maxWant <= MAX_WANT
    && 0 < h.maxTransfer <= MAX_TRANSFER
  }

  const HELLO_FIELDS := {
    "version", "node_id", "node_pubkey", "capabilities", "propagation_class", "max_want", "max_transfer"}

  function ParseHello(w: World, p: Payload): (r: Option<Hello>)
    ensures r.Some? ==> ValidHello(w, r.value)
  {
    if !OnlyFields(p, HELLO_FIELDS) then None else
    var version, nodeId, key := ParseUint(p, "version"), ParseText(p, "node_id"), ParseText(p, "node_pubkey");
    var caps, class_ := ParseTexts(p, "capabilities"), ParseText(p, "propagation_class");
    var maxWant, maxTransfer := ParseUint(p, "max_want"), ParseUint(p, "max_transfer");
    if version.None? || nodeId.None? || key.None? || caps.None? || class_.None? || maxWant.None? || maxTransfer.None?
    then None
    else
      var h := Hello(version.value, nodeId.value, key.value, caps.value, class_.value, maxWant.value,
                     maxTransfer.value);
      if ValidHello(w, h) then Some(h) else None
  }

  function HelloPayload(h: Hello): Payload
  {
    map["version" := UInt(h.version), "node_id" := Text(h.nodeId), "node_pubkey" := Text(h.nodePubKey),
        "capabilities" := Texts(h.capabilities), "propagation_class" := Text(h.propagationClass),
        "max_want" := UInt(h.maxWant), "max_transfer" := UInt(h.maxTransfer)]
  }

  const RELAY: Str := [114, 101, 108, 97, 121]   // "relay"

  /** A relay derives its key and node id from its relay id. */
  function BuildRelayHello(w: World, relayId: Str): Hello
  {
    var key := w.sha(RELAY + [58] + relayId);
    Hello(1, HexEncode(w.sha(key)), Base64Url.Encode(key), [RELAY], RELAY, MAX_WANT, MAX_TRANSFER)
  }

  /** Every relay's own HELLO passes its peer's parser unchanged. */
  lemma RelayHelloParses(w: World, relayId: Str)
    ensures ParseHello(w, HelloPayload(BuildRelayHello(w, relayId))) == Some(BuildRelayHello(w, relayId))
  {
    hide Base64Url.Encode; hide Base64Url.Decode; hide HexEncode; hide ToLower;
    var h := BuildRelayHello(w, relayId);
    var key := w.sha(RELAY + [58] + relayId);
    HexEncodeLower(w.sha(key));
    Base64Url.RoundTrip(key, false);
    Base64Url.EncodeIsPlain(key);
    TextsParse([RELAY]);
    assert ValidHello(w, h);
    assert h.nodeId != [];
  }

  /** Parsing keeps every announced value: a valid HELLO comes back unchanged, and whatever parses
      holds exactly the payload's own fields. */
  lemma HelloParses(w: World, p: Payload, h: Hello)
    ensures ValidHello(w, h) && h.nodePubKey != [] && h.propagationClass != [] && [] !in h.capabilities ==>
              ParseHello(w, HelloPayload(h)) == Some(h)
    ensures ParseHello(w, p) == Some(h) ==>
              && p.Keys == HELLO_FIELDS && ValidHello(w, h)
              && p["version"] == UInt(h.version)
              && p["node_id"] == Text(h.nodeId) && p["node_pubkey"] == Text(h.nodePubKey)
              && CoerceSlice(p["capabilities"]) == Some(Texts(h.capabilities).items)
              && p["propagation_class"] == Text(h.propagationClass)
              && p["max_want"] == UInt(h.maxWant) && p["max_transfer"] == UInt(h.maxTransfer)
  {
    hide Base64Url.Decode; hide HexEncode; hide ToLower;
    if ValidHello(w, h) && h.nodePubKey != [] && h.propagationClass != [] && [] !in h.capabilities {
      assert h.nodeId != [];
      TextsParse(h.capabilities);
    }
    if ParseHello(w, p) == Some(h) {
      ParsedTextsAre(CoerceSlice(p["capabilities"]).value);
      assert p.Keys == HELLO_FIELDS;
    }
  }

  /** Only texts parse as texts, each as itself. */
  lemma {:induction false} ParsedTextsAre(items: seq<Value>)
    ensures ParseTextsOf(items).Some? ==>
              items == Texts(ParseTextsOf(items).value).items && [] !in ParseTextsOf(items).value
  {
    if items != [] {
      ParsedTextsAre(items[1..]);
      if ParseTextsOf(items).Some? {
        var rest := ParseTextsOf(items[1..]).value;
        assert items == [items[0]] + items[1..];
        assert Texts([items[0].s] + rest).items == [Text(items[0].s)] + Texts(rest).items;
      }
    }
  }

  // ---- SUMMARY

  datatype Summary = Summary(bloom: Str, itemCount: nat, preview: seq<Str>, cursor: Str)

  /** The preview's cursor is its last id, and absent without a preview. */
  predicate CursorFits(preview: seq<Str>, cursor: Str)
  {
    if preview == [] then cursor == [] else cursor == preview[|preview| - 1]
  }

  function ParsePreview(p: Payload): Option<seq<Str>>
  {
    if "preview_item_ids" !in p then Some([])
    else
      var ids := ParseTexts(p, "preview_item_ids");
      if ids.None? || |ids.value| > MAX_PREVIEW || !SortedDigests(ids.value) then None else ids
  }

  /** An optional text; the empty text counts as absent. */
  function ParseCursor(p: Payload): Option<Str>
  {
    if "preview_cursor" !in p then Some([])
    else if p["preview_cursor"].Text? then Some(p["preview_cursor"].s) else None
  }

  function ParseSummary(p: Payload): (r: Option<Summary>)
    ensures r.Some? ==> |r.value.bloom| == FILTER_BYTES && |r.value.preview| <= MAX_PREVIEW
    ensures r.Some? ==> SortedDigests(r.value.preview) && CursorFits(r.value.preview, r.value.cursor)
  {
    var bloom, count := ParseBytes(p, "bloom_filter"), ParseUint(p, "item_count");
    var preview, cursor := ParsePreview(p), ParseCursor(p);
    if bloom.None? || |bloom.value| != FILTER_BYTES || count.None? || preview.None? || cursor.None? then None
    else if !CursorFits(preview.value, cursor.value) then None
    else Some(Summary(bloom.value, count.value, preview.value, cursor.value))
  }

  /** Empty preview and cursor are omitted from the wire. */
  function SummaryPayload(s: Summary): Payload
  {
    map["bloom_filter" := Blob(s.bloom), "item_count" := UInt(s.itemCount)]
    + (if s.preview == [] then map[] else map["preview_item_ids" := Texts(s.preview)])
    + (if s.cursor == [] then map[] else map["preview_cursor" := Text(s.cursor)])
  }

  /** What every summary this code builds looks like. */
  ghost predicate WellBuilt(w: World, s: Summary, items: seq<Str>)
  {
    && FilterOf(w.sha, s.bloom, items) && AllDigests(items)
    && |s.preview| <= MAX_PREVIEW && SortedDigests(s.preview)
    && CursorFits(s.preview, s.cursor)
  }

  /** Builds a summary over the items, with a preview and its cursor; malformed ids are dropped. */
  method BuildSummary(w: World, itemIds: seq<Str>, previewIds: seq<Str>) returns (s: Summary, ghost items: seq<Str>)
    ensures items == Enumerate(set x | x in itemIds && IsDigest(x))
    ensures WellBuilt(w, s, items)
    ensures s.itemCount == |items|
    ensures s.preview == Take(Enumerate(set x | x in previewIds && IsDigest(x)), MAX_PREVIEW)
  {
    hide Enumerate; hide DigestBytes; hide Compare;
    var normalized := NormalizeIdsDropInvalid(itemIds);
    var preview := NormalizeIdsDropInvalid(previewIds);
    items := normalized;
    OnlyDigests(itemIds, items);
    OnlyDigests(previewIds, preview);
    if |preview| > MAX_PREVIEW { preview := preview[..MAX_PREVIEW]; }
    var bloom := Bloom.Build(w.sha, normalized);
    var cursor := if |preview| == 0 then [] else preview[|preview| - 1];
    s := Summary(bloom, |normalized|, preview, cursor);
  }

  lemma OnlyDigests(ids: seq<Str>, sorted: seq<Str>)
    requires sorted == Enumerate(set x | x in ids && IsDigest(x))
    ensures SortedDigests(sorted)
  {
    hide Enumerate; hide DigestBytes;
    forall i | 0 <= i < |sorted| ensures IsDigest(sorted[i]) { assert sorted[i] in Elements(sorted); }
  }

  lemma DigestsNonEmpty(ids: seq<Str>)
    requires AllDigests(ids)
    ensures [] !in ids
  {
    assert !IsDigest([]);
  }

  /** What a summary looks like to its parser. */
  predicate Presentable(s: Summary)
  {
    && |s.bloom| == FILTER_BYTES && |s.preview| <= MAX_PREVIEW && SortedDigests(s.preview)
    && CursorFits(s.preview, s.cursor)
  }

  /** Every summary this code builds passes the peer's parser unchanged. */
  lemma SummaryParses(w: World, s: Summary, items: seq<Str>)
    requires WellBuilt(w, s, items)
    ensures ParseSummary(SummaryPayload(s)) == Some(s)
  {
    hide IsSet; hide IsDigest;
    PresentableParses(s);
  }

  /** Whatever parses holds the payload's own fields; what is absent is empty. */
  lemma SummaryFields(p: Payload, s: Summary)
    requires ParseSummary(p) == Some(s)
    ensures Presentable(s)
    ensures "bloom_filter" in p
    ensures p["bloom_filter"] == Blob(s.bloom) || (p["bloom_filter"] == Arr([]) && s.bloom == [])
    ensures "item_count" in p && p["item_count"] == UInt(s.itemCount)
    ensures if "preview_item_ids" in p then CoerceSlice(p["preview_item_ids"]) == Some(Texts(s.preview).items)
            else s.preview == []
    ensures if "preview_cursor" in p then p["preview_cursor"] == Text(s.cursor) else s.cursor == []
  {
    hide IsDigest; hide Compare;
    if "preview_item_ids" in p { ParsedTextsAre(CoerceSlice(p["preview_item_ids"]).value); }
  }

  /** Every presentable summary parses unchanged, whatever its filter and count. */
  lemma PresentableParses(s: Summary)
    requires Presentable(s)
    ensures ParseSummary(SummaryPayload(s)) == Some(s)
  {
    hide IsDigest; hide DigestBytes; hide Compare;
    var p := SummaryPayload(s);
    DigestsNonEmpty(s.preview);
    TextsParse(s.preview);
    if s.preview == [] {
      assert ParsePreview(p) == Some([]) && ParseCursor(p) == Some([]);
    } else {
      assert s.cursor in s.preview;
      assert p["preview_item_ids"] == Texts(s.preview);
      assert ParsePreview(p) == Some(s.preview);
      assert ParseCursor(p) == Some(s.cursor);
    }
  }

  // ---- REQUEST and RECEIPT

  function ParseRequest(p: Payload): (r: Option<seq<Str>>)
    ensures r.Some? ==> |r.value| <= MAX_WANT && SortedDigests(r.value)
  {
    if !OnlyFields(p, {"want"}) then None else
    var want := ParseTexts(p, "want");
    if want.None? || |want.value| > MAX_WANT || !SortedDigests(want.value) then None else want
  }

  function RequestPayload(want: seq<Str>): Payload { map["want" := Texts(want)] }

  lemma RequestParses(want: seq<Str>)
    requires |want| <= MAX_WANT && SortedDigests(want)
    ensures ParseRequest(RequestPayload(want)) == Some(want)
  {
    hide IsDigest; hide DigestBytes; hide Compare;
    DigestsNonEmpty(want);
    TextsParse(want);
  }

  /** A request is refused unless it is exactly one list of at most 256 strictly sorted digests. */
  lemma RequestFields(p: Payload, want: seq<Str>)
    ensures ParseRequest(p) == Some(want) <==>
              && p.Keys == {"want"} && CoerceSlice(p["want"]) == Some(Texts(want).items)
              && |want| <= MAX_WANT && SortedDigests(want)
  {
    hide IsDigest; hide Compare;
    if "want" in p && CoerceSlice(p["want"]).Some? {
      var items := CoerceSlice(p["want"]).value;
      ParsedTextsAre(items);
      if items == Texts(want).items && SortedDigests(want) {
        DigestsNonEmpty(want);
        TextsParse(want);
      }
    }
  }

  function ParseReceipt(p: Payload): (r: Option<seq<Str>>)
    ensures r.Some? ==> |r.value| <= MAX_RECEIPT && Distinct(r.value) && [] !in r.value
  {
    if !OnlyFields(p, {"received"}) then None else
    var ids := ParseTexts(p, "received");
    if ids.None? || !Distinct(ids.value) || |ids.value| > MAX_RECEIPT then None
    else ParsedTextsNonEmpty(CoerceSlice(p["received"]).value); ids
  }

  function ReceiptPayload(ids: seq<Str>): Payload { map["received" := Texts(ids)] }

  lemma ReceiptParses(ids: seq<Str>)
    requires |ids| <= MAX_RECEIPT && Distinct(ids) && [] !in ids
    ensures ParseReceipt(ReceiptPayload(ids)) == Some(ids)
  {
    TextsParse(ids);
  }

  function ParseRelayIngest(p: Payload): Option<seq<Str>>
  {
    if !OnlyFields(p, {"item_ids"}) then None else
    var ids := ParseTexts(p, "item_ids");
    if ids.None? || |ids.value| > MAX_RELAY_INGEST then None else ids
  }

  /** A receipt is refused unless it is exactly one list of at most 32 distinct non-empty ids. */
  lemma ReceiptFields(p: Payload, ids: seq<Str>)
    ensures ParseReceipt(p) == Some(ids) <==>
              && p.Keys == {"received"} && CoerceSlice(p["received"]) == Some(Texts(ids).items)
              && |ids| <= MAX_RECEIPT && Distinct(ids) && [] !in ids
  {
    if "received" in p && CoerceSlice(p["received"]).Some? {
      var items := CoerceSlice(p["received"]).value;
      ParsedTextsAre(items);
      if items == Texts(ids).items && [] !in ids { TextsParse(ids); }
    }
  }

  /** The same for an ingest notice, of at most 256 non-empty ids. */
  lemma RelayIngestFields(p: Payload, ids: seq<Str>)
    ensures ParseRelayIngest(p) == Some(ids) <==>
              && p.Keys == {"item_ids"} && CoerceSlice(p["item_ids"]) == Some(Texts(ids).items)
              && |ids| <= MAX_RELAY_INGEST && [] !in ids
  {
    if "item_ids" in p && CoerceSlice(p["item_ids"]).Some? {
      var items := CoerceSlice(p["item_ids"]).value;
      ParsedTextsAre(items);
      if items == Texts(ids).items && [] !in ids { TextsParse(ids); }
    }
  }

  /** What a relay announces about itself. */
  lemma RelayHelloSays(w: World, relayId: Str)
    ensures var h := BuildRelayHello(w, relayId);
            && ValidHello(w, h) && h.maxWant == MAX_WANT && h.maxTransfer == MAX_TRANSFER
            && h.capabilities == [RELAY] && h.propagationClass == RELAY
            && Base64Url.Decode(h.nodePubKey, true) == Some(w.sha(RELAY + [58] + relayId))
  {
    hide Base64Url.Encode; hide Base64Url.Decode; hide HexEncode; hide ToLower;
    RelayHelloParses(w, relayId);
    Base64Url.RoundTrip(w.sha(RELAY + [58] + relayId), true);
  }
}
