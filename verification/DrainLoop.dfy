/** The multi-round drain of a recipient's queue over one WebSocket session
    (internal/api/ws.go): summary, request, transfer and receipt, with a wrapping cursor. */
module DrainLoop {
  import opened ByteStrings
  import opened GossipLimits
  import opened Ordered
  import opened Digest
  import opened Rfc3339
  import opened Envelopes
  import opened EnvelopeTables
  import opened EnvelopeStores
  import opened Paging
  import opened Acks
  import opened Protocol
  import opened Transfer
  import opened Sessions
  import opened Bloom
  import opened DrainHandlers
  import Want
  import D = DrainSessions

  /** A recipient's eligible ids that the identity has not acknowledged, in digest order. */
  ghost function Unacked(view: map<Str, Envelope>, acks: set<Str>, recipient: Str, identity: Str, now: Time): seq<Str>
  {
    var all := Enumerate(EligibleFor(view, recipient, now));
    if identity == [] then all else NotAcked(all, acks, identity)
  }

  function NotAcked(ids: seq<Str>, acks: set<Str>, identity: Str): seq<Str>
  {
    Filter(ids, x => AckKey(x, identity) !in acks)
  }

  lemma EligibleListIsIdList(view: map<Str, Envelope>, recipient: Str, now: Time)
    ensures var all := Enumerate(EligibleFor(view, recipient, now)); IdList(all) && AllDigests(all)
  {
    hide Enumerate; hide DigestBytes;
    var all := Enumerate(EligibleFor(view, recipient, now));
    forall x | x in all ensures IsDigest(x) && x != [] {
      assert x in Elements(all);
      NoEmptyId(view, now);
    }
  }

  lemma UnackedIsIdList(view: map<Str, Envelope>, acks: set<Str>, recipient: Str, identity: Str, now: Time)
    ensures var ids := Unacked(view, acks, recipient, identity, now);
            && IdList(ids) && AllDigests(ids)
            && forall x :: x in ids <==>
                 x in EligibleFor(view, recipient, now) && (identity != [] ==> AckKey(x, identity) !in acks)
  {
    hide Enumerate; hide DigestBytes; hide AckKey; hide EligibleFor; hide Compare;
    var all := Enumerate(EligibleFor(view, recipient, now));
    var p := x => AckKey(x, identity) !in acks;
    EligibleListIsIdList(view, recipient, now);
    forall x ensures x in all <==> x in EligibleFor(view, recipient, now) { assert x in all <==> x in Elements(all); }
    FilterMember(all, p);
    FilterSorted(all, p);
    var ids := Unacked(view, acks, recipient, identity, now);
    forall i | 0 <= i < |ids| ensures IsDigest(ids[i]) {
      assert ids[i] in all;
      var j :| 0 <= j < |all| && all[j] == ids[i];
    }
  }

  datatype Loaded = Found(item: TransferObject) | Missing | LoadFailed

  /** What a request for an id is answered with. */
  predicate Servable(load: Str -> Loaded, recipient: Str, nowMs: int, id: Str)
  {
    load(id).Found? && load(id).item.envelope.to == recipient && load(id).item.expiryMs > nowMs
  }

  /** A failed lookup is met before 32 objects are found. */
  ghost predicate LookupFails(load: Str -> Loaded, recipient: Str, nowMs: int, want: seq<Str>)
  {
    exists i: nat | i < |want| ::
      load(want[i]) == LoadFailed && |Filter(want[..i], x => Servable(load, recipient, nowMs, x))| < MAX_TRANSFER
  }

  /** The objects a request is answered with: the first 32 servable ones. */
  ghost function ServedItems(load: Str -> Loaded, recipient: Str, nowMs: int, want: seq<Str>): seq<TransferObject>
  {
    Items(load, Take(Filter(want, x => Servable(load, recipient, nowMs, x)), MAX_TRANSFER))
  }

  datatype Reply =
    | SendSummary(summary: Summary)
    | SendTransfer(items: seq<TransferObject>)
    | SendRequest(want: seq<Str>)
    | SendReceipt(received: seq<Str>)
    | Nothing
    | StopSession(reason: D.StopReason)
    | LookupError
    | EncodeError
    | CursorError

  function ReplyOf(v: Verdict, sent: Reply): Reply
  {
    match v
    case Sent => sent
    case Idle => Nothing
    case Halted(reason) => StopSession(reason)
    case LookupFailed => LookupError
    case NotEncodable => EncodeError
  }

  function SummaryFrame(s: Summary): Frame { Frame("SUMMARY", SummaryPayload(s)) }

  function TransferFrame(items: seq<TransferObject>): Frame { Frame("TRANSFER", TransferPayload(items)) }

  function RequestFrame(want: seq<Str>): Frame { Frame("REQUEST", RequestPayload(want)) }

  function ReceiptFrame(ids: seq<Str>): Frame { Frame("RECEIPT", ReceiptPayload(ids)) }

  /** Bytes on the wire, if the frame is not too long. */
  function WireSize(w: World, frame: Frame): Option<nat>
  {
    var p := Prefixed(w.marshal(frame));
    if p.None? then None else Some(|p.value|)
  }

  /** Which store reads of one summary work: the page, the page from the start, each ack. */
  datatype Reads = Reads(page: bool, wrap: bool, ack: Str -> bool)

  /** All the reads a summary needs work; `all` are the recipient's eligible ids. */
  ghost predicate Readable(f: Reads, all: seq<Str>, identity: Str, after: Str)
  {
    && f.page
    && (After(all, after) == [] && all != [] && after != [] ==> f.wrap)
    && (identity != [] ==> forall x | x in all :: f.ack(x))
  }

  class ClientSession {
    const w: World
    const store: EnvelopeStore
    const acks: AckStore
    const drain: D.DrainSession
    const adapter: SessionAdapter
    const recipient: Str
    const identity: Str
    var cursor: Str

    ghost predicate Valid()
      reads this, store
    {
      store.Valid() && NulFree(recipient)
    }

    ghost function Pending(now: Time): seq<Str>
      reads this, store, acks
    {
      Unacked(store.Contents(), acks.acks, recipient, identity, now)
    }

    ghost predicate Listable(after: Str, now: Time, f: Reads)
      reads this, store
    {
      Readable(f, Enumerate(EligibleFor(store.Contents(), recipient, now)), identity, after)
    }

    constructor (w: World, store: EnvelopeStore, acks: AckStore, drain: D.DrainSession, adapter: SessionAdapter,
                 recipient: Str, identity: Str)
      requires store.Valid() && NulFree(recipient)
      ensures Valid() && cursor == [] && this.store == store && this.acks == acks && this.drain == drain
      ensures this.adapter == adapter && this.recipient == recipient && this.identity == identity && this.w == w
    {
      this.w, this.store, this.acks, this.drain, this.adapter := w, store, acks, drain, adapter;
      this.recipient, this.identity, this.cursor := recipient, identity, [];
    }

    /** The summary of what is still pending, previewing the stretch after the cursor. */
    method BuildRecipientSummary(after: Str, now: Time, f: Reads) returns (r: Option<(Summary, Str)>)
      requires Valid()
      ensures r.None? <==> recipient != [] && ((after != [] && !IsDigest(after)) || !Listable(after, now, f))
      ensures r.Some? && recipient != [] ==>
                && r.value.0.preview == Preview(Pending(now), after)
                && r.value.0.itemCount == |Pending(now)|
                && r.value.1 == NextCursor(Pending(now), after)
                && WellBuilt(w, r.value.0, Pending(now))
      ensures r.Some? && recipient == [] ==> r.value.0.preview == [] && r.value.0.itemCount == 0 && r.value.1 == []
    {
      hide DigestBytes; hide Enumerate; hide Unacked; hide View; hide Agrees; hide Compare; hide Preview;
      hide NextCursor;
      hide WellBuilt; hide Readable;
      if recipient == [] {
        var empty, _ := BuildSummary(w, [], []);
        NothingEnumerated();
        return Some((empty, []));
      }
      var chosen := SelectPending(after, now, f);
      if chosen.None? { return None; }
      var (eligible, preview, next) := chosen.value;
      UnackedIsIdList(store.Contents(), acks.acks, recipient, identity, now);
      PreviewSelects(eligible, after);
      SortedUnique(Enumerate(Elements(preview)), preview);
      var normalized := NormalizeIds(preview);
      var summary, items := BuildSummary(w, eligible, normalized.value);
      AlreadyNormal(eligible); AlreadyNormal(preview);
      Recount(w, summary, eligible, |eligible|);
      return Some((summary.(itemCount := |eligible|), next));
    }

    /** The pending ids, the preview among them, and the cursor to continue from. */
    method SelectPending(after: Str, now: Time, f: Reads) returns (r: Option<(seq<Str>, seq<Str>, Str)>)
      requires Valid() && recipient != []
      ensures r.None? <==> (after != [] && !IsDigest(after)) || !Listable(after, now, f)
      ensures r.Some? ==> r.value == (Pending(now), Preview(Pending(now), after), NextCursor(Pending(now), after))
    {
      hide DigestBytes; hide Enumerate; hide After; hide EligibleFor; hide NotAcked; hide View; hide Agrees;
      hide Compare;
      ghost var all := Enumerate(EligibleFor(store.Contents(), recipient, now));
      if !f.page { return None; }
      var page := store.GetEnvelopeIdsByDestinationPage(recipient, after, MAX_PREVIEW, now);
      if page.None? { return None; }
      var preview, next, eligible := page.value.ids, page.value.next, page.value.eligible;
      NoneAfterNothing(all, after);
      if |preview| == 0 && page.value.total > 0 && after != [] {
        if !f.wrap { return None; }
        var wrapped := store.GetEnvelopeIdsByDestinationPage(recipient, [], MAX_PREVIEW, now);
        AfterNone(all);
        preview, next := wrapped.value.ids, wrapped.value.next;
      }
      if identity != [] {
        var unacked := DropAcked(eligible, f.ack);
        if unacked.None? { return None; }
        eligible := unacked.value;
        UnackedIsIdList(store.Contents(), acks.acks, recipient, identity, now);
        preview := PreviewOf(eligible, after);
        next := if |preview| > 0 then preview[|preview| - 1] else [];
      }
      return Some((eligible, preview, next));
    }

    /** The ids without acknowledgement, unless one of the lookups fails. */
    method DropAcked(ids: seq<Str>, works: Str -> bool) returns (r: Option<seq<Str>>)
      ensures r.None? <==> exists x | x in ids :: !works(x)
      ensures r.Some? ==> r.value == NotAcked(ids, acks.acks, identity)
    {
      hide AckKey;
      var kept: seq<Str> := [];
      ghost var keys, who := acks.acks, identity;
      ghost var p := x => AckKey(x, who) !in keys;
      for i := 0 to |ids|
        invariant kept == Filter(ids[..i], p)
        invariant forall x | x in ids[..i] :: works(x)
      {
        assert ids[..i + 1] == ids[..i] + [ids[i]];
        FilterAppend(ids[..i], [ids[i]], p);
        var acked := acks.IsAckedBy(ids[i], identity, works(ids[i]));
        if acked.None? { return None; }
        if !acked.value { kept := kept + [ids[i]]; }
      }
      assert ids[..|ids|] == ids;
      FilterAgree(ids, p, x => AckKey(x, identity) !in keys);
      return Some(kept);
    }

    /** Up to 64 ids after the cursor, or the first 64 when none is left. */
    method PreviewOf(ids: seq<Str>, after: Str) returns (preview: seq<Str>)
      requires IdList(ids)
      ensures preview == Preview(ids, after)
    {
      hide Compare;
      preview := [];
      ghost var p := x => Less(after, x);
      var i := 0;
      while i < |ids| && |preview| < MAX_PREVIEW
        invariant 0 <= i <= |ids| && |preview| <= MAX_PREVIEW
        invariant preview == After(ids[..i], after)
      {
        assert ids[..i + 1] == ids[..i] + [ids[i]];
        FilterAppend(ids[..i], [ids[i]], p);
        DigestOrderIsTextOrder(ids[i], after); CompareFlip(ids[i], after);
        if after == [] || CompareDigestHex(ids[i], after) > 0 { preview := preview + [ids[i]]; }
        i := i + 1;
      }
      assert ids == ids[..i] + ids[i..];
      FilterAppend(ids[..i], ids[i..], p);
      assert i == |ids| ==> ids[..i] == ids;
      if |preview| == 0 && |ids| > 0 && after != [] {
        preview := if |ids| > MAX_PREVIEW then ids[..MAX_PREVIEW] else ids;
      }
    }

    /** Puts a frame on the send queue, under the byte budget. */
    method SendEnvelope(frame: Frame, queued: bool, clock: int) returns (v: Verdict)
      modifies drain
      ensures (drain.state, v) == SendFrame(old(drain.state), drain.limits, WireSize(w, frame), queued, clock)
    {
      hide D.CanSend; hide D.CheckBudgets;
      var prefixed := Prefixed(w.marshal(frame));
      if prefixed.None? { return NotEncodable; }
      var ok, reason := drain.CanSendBytes(|prefixed.value|, clock);
      if !ok { return Halted(reason); }
      if !queued {
        drain.StopWith(D.TransportBackoff);
        return Halted(D.TransportBackoff);
      }
      reason := drain.RecordBytesSent(|prefixed.value|, clock);
      if reason != D.NoReason { return Halted(reason); }
      return Sent;
    }

    /** A summary handler ran from drain state `s0` and cursor `from`: its budget calls, the new
        cursor, the summary it built and its reply. */
    ghost predicate SummaryStep(
      s0: D.State, from: Str, now: Time, clock: int, f: Reads, queued: bool, summary: Summary, reply: Reply)
      reads this, store, acks, drain
    {
      var ids, gate, listed := Pending(now), D.CanStart(s0, drain.limits, clock).1, Listable(from, now, f);
      var size := WireSize(w, SummaryFrame(summary));
      var (s, v) := SummaryRound(s0, drain.limits, listed, ids == [], size, queued, clock);
      && drain.state == s && reply == ReplyOf(v, SendSummary(summary))
      && cursor == (if gate && listed then NextCursor(ids, from) else from)
      && (gate && listed ==>
            summary.preview == Preview(ids, from) && summary.itemCount == |ids| && WellBuilt(w, summary, ids))
    }

    /** Starts a round: asks the drain session, builds the summary, moves the cursor, sends. */
    method SendDrainSummary(now: Time, clock: int, f: Reads, queued: bool)
      returns (reply: Reply, ghost summary: Summary)
      requires Valid() && (cursor == [] || IsDigest(cursor)) && recipient != []
      modifies this, drain
      ensures Valid() && Pending(now) == old(Pending(now)) && (cursor == [] || IsDigest(cursor))
      ensures SummaryStep(old(drain.state), old(cursor), now, clock, f, queued, summary, reply)
    {
      hide DigestBytes; hide Enumerate; hide EligibleFor; hide AckKey; hide View; hide Agrees; hide Compare;
      hide Unacked;
      hide Preview; hide NextCursor; hide WellBuilt; hide D.CanStart; hide SendFrame; hide Readable;
      hide SummaryPayload;
      summary := Summary([], 0, [], []);
      var ok, reason := drain.CanStartAnotherRound(clock);
      if !ok { return StopSession(reason), summary; }
      var built := BuildRecipientSummary(cursor, now, f);
      if built.None? { return StopSession(D.StorageError), summary; }
      NextIsDigest(Pending(now), cursor) by {
        UnackedIsIdList(store.Contents(), acks.acks, recipient, identity, now);
      }
      cursor, summary := built.value.1, built.value.0;
      if built.value.0.itemCount == 0 { drain.Complete(false, clock); }
      var v := SendEnvelope(SummaryFrame(built.value.0), queued, clock);
      return ReplyOf(v, SendSummary(built.value.0)), summary;
    }

    /** Serves the wanted ids in order, at most 32 of them, and expects a receipt for those. */
    method HandleRequest(want: seq<Str>, load: Str -> Loaded, nowMs: int, clock: int, queued: bool)
      returns (reply: Reply)
      modifies drain, adapter
      ensures var items := ServedItems(load, recipient, nowMs, want);
              var found := if LookupFails(load, recipient, nowMs, want) then None else Some(|items|);
              var size := WireSize(w, TransferFrame(items));
              var (s, v) := RequestRound(old(drain.state), drain.limits, |want|, found, size, queued, clock);
              && drain.state == s && reply == ReplyOf(v, SendTransfer(items))
              && adapter.Abs() == (if Serves(old(drain.state), drain.limits, |want|, found, clock)
                                   then SetExpected(old(adapter.Abs()), Ids(items)) else old(adapter.Abs()))
    {
      hide D.CanStart; hide SendFrame; hide ServedItems; hide LookupFails; hide TransferPayload; hide SetExpected;
      drain.RecordRequestedItems(|want|, clock);
      if |want| == 0 {
        drain.Complete(false, clock);
        return Nothing;
      }
      var ok, reason := drain.CanStartAnotherRound(clock);
      if !ok { return StopSession(reason); }
      var items, found := Serve(want, load, nowMs);
      if !found { return LookupError; }
      drain.RecordTransferredItems(|items|, clock);
      if |items| == 0 {
        drain.Complete(false, clock);
        return Nothing;
      }
      adapter.SetExpectedReceipt(Ids(items));
      var v := SendEnvelope(TransferFrame(items), queued, clock);
      return ReplyOf(v, SendTransfer(items));
    }

    method Serve(want: seq<Str>, load: Str -> Loaded, nowMs: int) returns (items: seq<TransferObject>, ok: bool)
      ensures ok <==> !LookupFails(load, recipient, nowMs, want)
      ensures ok ==> items == ServedItems(load, recipient, nowMs, want)
    {
      hide Servable;
      items, ok := [], true;
      ghost var p := x => Servable(load, recipient, nowMs, x);
      ghost var served: seq<Str> := [];
      var i := 0;
      while i < |want| && |items| < MAX_TRANSFER
        invariant 0 <= i <= |want| && |items| == |served| <= MAX_TRANSFER
        invariant served == Filter(want[..i], p) && items == Items(load, served)
        invariant forall j | 0 <= j < i :: load(want[j]) != LoadFailed
      {
        assert want[..i + 1] == want[..i] + [want[i]];
        FilterAppend(want[..i], [want[i]], p);
        FilterOne(want[i], p);
        ServableHere(load, recipient, nowMs, want[i]);
        match load(want[i]) {
          case LoadFailed =>
            LookupFailsAt(load, recipient, nowMs, want, i);
            return items, false;
          case Missing =>
          case Found(item) =>
            if item.envelope.to == recipient && item.expiryMs > nowMs {
              ItemsAppend(load, served, want[i]);
              items := items + [item];
              served := served + [want[i]];
            }
        }
        i := i + 1;
      }
      LookupsDone(load, recipient, nowMs, want, i);
    }

    /** Answers the client's own summary with a request for what is missing here, or with an
        empty one, which completes a round. */
    method HandleSummary(m: Summary, peerMaxWant: nat, known: Str -> Want.Lookup, queued: bool, clock: int)
      returns (reply: Reply, ghost want: Option<seq<Str>>)
      modifies drain
      ensures !CursorFits(m.preview, m.cursor) ==> reply == CursorError && drain.state == old(drain.state)
      ensures CursorFits(m.preview, m.cursor) ==>
                var ids := if want.Some? then want.value else [];
                var count := if want.Some? then Some(|ids|) else None;
                var size := WireSize(w, RequestFrame(ids));
                var (s, v) := OfferRound(old(drain.state), drain.limits, count, size, queued, clock);
                drain.state == s && reply == ReplyOf(v, SendRequest(ids))
      ensures CursorFits(m.preview, m.cursor) && want.Some? ==>
                want.value == Enumerate(Elements(Want.Chosen(
                  Enumerate(Elements(m.preview)), Enumerate(Elements([])), x => Want.Wanted(w.sha, m.bloom, known, x),
                  Want.Limit(peerMaxWant))))
      ensures CursorFits(m.preview, m.cursor) && want.None? ==>
                !AllDigests(m.preview) || exists x | x in m.preview :: known(x) == Want.Failed
      ensures D.Unlimited(old(drain.state), drain.limits) && CursorFits(m.preview, m.cursor) && want.Some? && queued ==>
                (WireSize(w, RequestFrame(want.value)).Some? ==> reply == SendRequest(want.value))
    {
      hide D.Step; hide SendFrame; hide WireSize; hide RequestPayload; hide Enumerate; hide Want.Chosen;
      hide Want.Wanted;
      hide Elements; hide IsDigest;
      want := None;
      if !CursorFits(m.preview, m.cursor) { return CursorError, want; }
      var missing := Want.ComputeMissingWant(w.sha, m.bloom, m.preview, [], peerMaxWant, known);
      want := missing;
      if missing.None? { return StopSession(D.StorageError), want; }
      var ids := missing.value;
      ghost var size := WireSize(w, RequestFrame(ids));
      if D.Unlimited(drain.state, drain.limits) && size.Some? {
        UnlimitedAnswers(drain.state, drain.limits, |ids|, size, clock);
      }
      drain.RecordRequestedItems(|ids|, clock);
      if |ids| == 0 { drain.Complete(false, clock); }
      var v := SendEnvelope(RequestFrame(ids), queued, clock);
      return ReplyOf(v, SendRequest(ids)), want;
    }

    /** Records the acknowledged ids and, when some are new, starts the next round. */
    method HandleReceipt(accepted: seq<Str>, now: Time, clock: int, commit: bool, f: Reads, queued: bool)
      returns (reply: Reply, ghost summary: Summary)
      requires Valid() && (cursor == [] || IsDigest(cursor))
      modifies this, acks, drain
      ensures Valid() && (cursor == [] || IsDigest(cursor))
      ensures accepted != [] && !commit ==>
                && reply == StopSession(D.StorageError)
                && acks.acks == old(acks.acks) && drain.state == old(drain.state) && cursor == old(cursor)
      ensures accepted == [] || commit ==>
                var (after, marked) := MarkEach(old(acks.acks), accepted, identity);
                var count := CountMarked(accepted, marked);
                var settled := DrainHandlers.Settle(old(drain.state), drain.limits, count, clock);
                && acks.acks == after
                && (recipient == [] ==> reply == Nothing && drain.state == settled && cursor == old(cursor))
                && (recipient != [] && count == 0 ==>
                      && (drain.state, reply == Nothing) == D.CanStart(settled, drain.limits, clock)
                      && (reply != Nothing ==> reply == StopSession(drain.state.stop)) && cursor == old(cursor))
                && (recipient != [] && count > 0 ==>
                      SummaryStep(settled, old(cursor), now, clock, f, queued, summary, reply))
    {
      hide DigestBytes; hide Enumerate; hide EligibleFor; hide AckKey; hide View; hide Agrees; hide Compare;
      hide Preview; hide NextCursor; hide WellBuilt; hide MarkEach; hide Unacked; hide D.CanStart; hide SummaryRound;
      hide Readable;
      summary := Summary([], 0, [], []);
      var marked := acks.MarkAckedBatch(accepted, identity, commit);
      if marked.None? { return StopSession(D.StorageError), summary; }
      var count := CountTransitions(accepted, marked.value);
      drain.RecordAcknowledgedItems(count, clock);
      drain.Complete(count != 0, clock);
      if recipient == [] { return Nothing, summary; }
      if count == 0 {
        var ok, reason := drain.CanStartAnotherRound(clock);
        return (if ok then Nothing else StopSession(reason)), summary;
      }
      reply, summary := SendDrainSummary(now, clock, f, queued);
    }
  }

  /** What is requested of an honest client's summary within its own limit: exactly the previewed ids
      that are unknown here. */
  lemma HonestOfferIsRequested(w: World, m: Summary, items: seq<Str>, peerMaxWant: nat, known: Str -> Want.Lookup)
    requires WellBuilt(w, m, items) && (forall x | x in m.preview :: x in items)
    requires |m.preview| <= Want.Limit(peerMaxWant)
    ensures Enumerate(Elements(Want.Chosen(
              Enumerate(Elements(m.preview)), Enumerate(Elements([])), x => Want.Wanted(w.sha, m.bloom, known, x),
              Want.Limit(peerMaxWant)))) == Filter(m.preview, x => known(x) == Want.Unknown)
  {
    hide Want.Chosen; hide Want.Wanted; hide IsDigest; hide Compare; hide Filter; hide FilterOf;
    SortedUnique(Enumerate(Elements(m.preview)), m.preview);
    var none: seq<Str> := [];
    SortedUnique(Enumerate(Elements(none)), none);
    Want.HonestPreviewIsRequested(w.sha, m.bloom, items, m.preview, peerMaxWant, known);
  }

  lemma ServableHere(load: Str -> Loaded, recipient: Str, nowMs: int, id: Str)
    ensures Servable(load, recipient, nowMs, id) <==>
              load(id).Found? && load(id).item.envelope.to == recipient && load(id).item.expiryMs > nowMs
  {
  }

  lemma LookupFailsAt(load: Str -> Loaded, recipient: Str, nowMs: int, want: seq<Str>, i: nat)
    requires i < |want| && load(want[i]) == LoadFailed
    requires |Filter(want[..i], x => Servable(load, recipient, nowMs, x))| < MAX_TRANSFER
    ensures LookupFails(load, recipient, nowMs, want)
  {
  }

  /** The loop stopped at `i`, at the end or with 32 objects, and no lookup before it failed. */
  lemma LookupsDone(load: Str -> Loaded, recipient: Str, nowMs: int, want: seq<Str>, i: nat)
    requires i <= |want| && forall j | 0 <= j < i :: load(want[j]) != LoadFailed
    requires i == |want| || |Filter(want[..i], x => Servable(load, recipient, nowMs, x))| == MAX_TRANSFER
    requires |Filter(want[..i], x => Servable(load, recipient, nowMs, x))| <= MAX_TRANSFER
    ensures !LookupFails(load, recipient, nowMs, want)
    ensures Take(Filter(want, x => Servable(load, recipient, nowMs, x)), MAX_TRANSFER)
            == Filter(want[..i], x => Servable(load, recipient, nowMs, x))
  {
    hide Servable; hide Filter;
    var p := x => Servable(load, recipient, nowMs, x);
    assert want == want[..i] + want[i..];
    FilterAppend(want[..i], want[i..], p);
    assert i == |want| ==> want[..i] == want;
    forall j: nat | i <= j < |want| ensures |Filter(want[..j], p)| >= |Filter(want[..i], p)| {
      assert want[..j] == want[..i] + want[i..j];
      FilterAppend(want[..i], want[i..j], p);
    }
  }

  method CountTransitions(accepted: seq<Str>, marked: set<Str>) returns (count: nat)
    ensures count == CountMarked(accepted, marked)
  {
    count := 0;
    for i := 0 to |accepted|
      invariant count == CountMarked(accepted[..i], marked)
    {
      CountAppend(accepted[..i], accepted[i], marked);
      assert accepted[..i + 1] == accepted[..i] + [accepted[i]];
      if accepted[i] in marked { count := count + 1; }
    }
    assert accepted[..|accepted|] == accepted;
  }

  lemma Recount(w: World, s: Summary, items: seq<Str>, n: nat)
    requires WellBuilt(w, s, items)
    ensures WellBuilt(w, s.(itemCount := n), items)
  {
  }

  lemma {:induction false} CountAppend(ids: seq<Str>, id: Str, marked: set<Str>)
    ensures CountMarked(ids + [id], marked) == CountMarked(ids, marked) + if id in marked then 1 else 0
  {
    if ids != [] {
      assert (ids + [id])[1..] == ids[1..] + [id];
      CountAppend(ids[1..], id, marked);
    } else {
      assert ids + [id] == [id] && [id][1..] == [];
    }
  }

  function Ids(items: seq<TransferObject>): seq<Str>
  {
    seq(|items|, i requires 0 <= i < |items| => items[i].itemId)
  }

  function Items(load: Str -> Loaded, ids: seq<Str>): seq<TransferObject>
  {
    if ids == [] then []
    else Items(load, ids[..|ids| - 1]) + if load(ids[|ids| - 1]).Found? then [load(ids[|ids| - 1]).item] else []
  }

  lemma ItemsAppend(load: Str -> Loaded, ids: seq<Str>, id: Str)
    requires load(id).Found?
    ensures Items(load, ids + [id]) == Items(load, ids) + [load(id).item]
  {
    assert (ids + [id])[..|ids|] == ids;
  }

  lemma {:induction false} IdsOfItems(load: Str -> Loaded, ids: seq<Str>)
    requires forall x | x in ids :: load(x).Found? && load(x).item.itemId == x
    ensures Ids(Items(load, ids)) == ids
  {
    if ids != [] {
      var rest, id := ids[..|ids| - 1], ids[|ids| - 1];
      assert ids == rest + [id];
      assert id in ids;
      IdsOfItems(load, rest);
      ItemsAppend(load, rest, id);
    }
  }

  lemma NothingEnumerated()
    ensures Enumerate(set x: Str | x in [] && IsDigest(x)) == []
  {
    var none := set x: Str | x in [] && IsDigest(x);
    assert none == {};
  }

  lemma NoneAfterNothing(all: seq<Str>, cursor: Str)
    ensures all == [] ==> After(all, cursor) == []
  {
  }

  /** A preview is a sorted part of the list. */
  lemma PreviewSelects(ids: seq<Str>, cursor: Str)
    requires IdList(ids) && AllDigests(ids)
    ensures SortedDigests(Preview(ids, cursor)) && |Preview(ids, cursor)| <= MAX_PREVIEW
    ensures forall x | x in Preview(ids, cursor) :: x in ids
  {
    hide Preview; hide DigestBytes; hide Position; hide Compare; hide NextCursor;
    PreviewIsStretch(ids, cursor);
    var s, page := Start(ids, cursor), Preview(ids, cursor);
    forall i | 0 <= i < |page| ensures page[i] == ids[s + i] {}
  }

  lemma NextIsDigest(ids: seq<Str>, cursor: Str)
    requires IdList(ids) && AllDigests(ids)
    ensures NextCursor(ids, cursor) == [] || IsDigest(NextCursor(ids, cursor))
  {
    hide DigestBytes; hide Preview; hide Compare;
    PreviewSelects(ids, cursor);
  }

  lemma AlreadyNormal(ids: seq<Str>)
    requires SortedDigests(ids)
    ensures Enumerate(set x | x in ids && IsDigest(x)) == ids
  {
    hide Enumerate; hide DigestBytes;
    forall x | x in ids ensures IsDigest(x) { var i :| 0 <= i < |ids| && ids[i] == x; }
    assert (set x | x in ids && IsDigest(x)) == Elements(ids);
    SortedUnique(Enumerate(Elements(ids)), ids);
  }
}
