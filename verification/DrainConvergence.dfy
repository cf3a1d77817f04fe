/** A drain with a client that asks for every preview and acknowledges every object: what each
    round of the handlers in `DrainLoop` does to the pending list, where whole sessions lead, and
    exactly when one stalls. */
module DrainConvergence {
  import opened ByteStrings
  import opened GossipLimits
  import opened Ordered
  import opened Digest
  import opened Rfc3339
  import opened Envelopes
  import opened EnvelopeStores
  import opened Paging
  import opened Acks
  import opened Bloom
  import opened Protocol
  import opened Transfer
  import opened Sessions
  import opened DrainHandlers
  import opened DrainLoop
  import D = DrainSessions

  /** The recipient's queue as the handlers see it. */
  datatype Queue = Queue(view: map<Str, Envelope>, recipient: Str, identity: Str, load: Str -> Loaded)

  datatype Progress = Progress(acks: set<Str>, cursor: Str)

  ghost function Pending(q: Queue, p: Progress, now: Time): seq<Str>
  {
    Unacked(q.view, p.acks, q.recipient, q.identity, now)
  }

  /** What the summary built at `now` previews. */
  ghost function Previewed(q: Queue, p: Progress, now: Time): seq<Str> { Preview(Pending(q, p, now), p.cursor) }

  predicate ServableAt(q: Queue, asked: Time, id: Str) { Servable(q.load, q.recipient, asked / MILLISECOND, id) }

  /** What a request for that preview is answered with when it is handled at `asked`. */
  ghost function Served(q: Queue, p: Progress, now: Time, asked: Time): seq<Str>
  {
    Take(Filter(Previewed(q, p, now), x => ServableAt(q, asked, x)), MAX_TRANSFER)
  }

  /** Something is pending, and nothing previewed is servable any more. */
  ghost predicate Stalls(q: Queue, p: Progress, now: Time, asked: Time)
  {
    Pending(q, p, now) != [] && forall x | x in Previewed(q, p, now) :: !ServableAt(q, asked, x)
  }

  /** One round: the summary of `now`, a request for its preview handled at `asked`, and a
      receipt for everything sent. */
  ghost function Round(q: Queue, p: Progress, now: Time, asked: Time): Progress
  {
    Progress(MarkEach(p.acks, Served(q, p, now, asked), q.identity).0, NextCursor(Pending(q, p, now), p.cursor))
  }

  lemma PreviewedIds(q: Queue, p: Progress, now: Time)
    ensures var ids, preview := Pending(q, p, now), Previewed(q, p, now);
            && IdList(ids) && AllDigests(ids) && Distinct(preview)
            && (forall x | x in preview :: x in ids)
            && (forall x | x in ids :: x != [] && NulFree(x))
            && (preview == [] <==> ids == [])
  {
    hide Unacked; hide EligibleFor; hide Preview; hide DigestBytes; hide Compare; hide AckKey; hide NextCursor;
    hide Position;
    var ids := Pending(q, p, now);
    UnackedIsIdList(q.view, p.acks, q.recipient, q.identity, now);
    PreviewSelects(ids, p.cursor);
    PreviewIsStretch(ids, p.cursor);
    SortedDistinct(Preview(ids, p.cursor));
    forall x | x in ids ensures NulFree(x) && x != [] { DigestNulFree(ids, x); }
  }

  lemma DigestNulFree(ids: seq<Str>, x: Str)
    requires AllDigests(ids) && x in ids
    ensures NulFree(x) && x != []
  {
    var i :| 0 <= i < |ids| && ids[i] == x;
    HexNulFree(x);
  }

  lemma ServedIds(q: Queue, p: Progress, now: Time, asked: Time)
    ensures var ids, served := Pending(q, p, now), Served(q, p, now, asked);
            && (forall x | x in served :: x in ids && x != [] && NulFree(x) && ServableAt(q, asked, x))
            && Distinct(served) && |served| <= MAX_TRANSFER
            && (served == [] <==> ids == [] || Stalls(q, p, now, asked))
  {
    hide ServableAt; hide Previewed; hide Pending; hide Filter; hide IdList; hide AllDigests;
    var preview, f := Previewed(q, p, now), x => ServableAt(q, asked, x);
    PreviewedIds(q, p, now);
    FilterMember(preview, f);
    FilterDistinct(preview, f);
    SomeMember(Filter(preview, f));
    var served := Served(q, p, now, asked);
    forall x | x in served ensures x in preview && f(x) {
      var i :| 0 <= i < |served| && served[i] == x;
      assert Filter(preview, f)[i] == x;
      assert x in Filter(preview, f);
    }
  }

  lemma SomeMember<T>(s: seq<T>)
    ensures s != [] ==> exists x :: x in s
  {
    if s != [] { assert s[0] in s; }
  }

  /** Each round takes exactly the served ids off the pending list: at most 32, and none exactly
      when it stalls. */
  lemma RoundShrinks(q: Queue, p: Progress, now: Time, asked: Time)
    requires q.identity != []
    ensures var ids, served, ids' :=
              Pending(q, p, now), Served(q, p, now, asked), Pending(q, Round(q, p, now, asked), now);
            && Elements(ids') == Elements(ids) - Elements(served)
            && |ids'| == |ids| - |served|
            && |served| <= MAX_TRANSFER && (ids != [] ==> (|served| > 0 <==> !Stalls(q, p, now, asked)))
  {
    hide Unacked; hide EligibleFor; hide Previewed; hide DigestBytes; hide Compare; hide MarkEach; hide NextCursor;
    hide Served;
    hide Stalls; hide AckKey;
    var ids, served := Pending(q, p, now), Served(q, p, now, asked);
    var p' := Round(q, p, now, asked);
    var ids' := Pending(q, p', now);
    ServedIds(q, p, now, asked);
    UnackedIsIdList(q.view, p.acks, q.recipient, q.identity, now);
    UnackedIsIdList(q.view, p'.acks, q.recipient, q.identity, now);
    MarkEachResult(p.acks, served, q.identity);
    forall x ensures x in ids' <==> x in ids && x !in served {
      if x in ids { AckedNow(p.acks, served, q.identity, x, ids); }
    }
    SortedDistinct(ids); SortedDistinct(ids');
    DistinctCount(ids); DistinctCount(ids'); DistinctCount(served);
    assert Elements(ids') == Elements(ids) - Elements(served);
    assert Elements(served) <= Elements(ids);
  }

  lemma AckedNow(acks: set<Str>, served: seq<Str>, who: Str, x: Str, ids: seq<Str>)
    requires AllDigests(ids) && x in ids && AckKey(x, who) !in acks
    requires forall y | y in served :: y != [] && NulFree(y)
    ensures AckKey(x, who) in acks + KeysOf(served, who) <==> x in served
  {
    hide DigestBytes; hide AckKey;
    DigestNulFree(ids, x);
    if AckKey(x, who) in KeysOf(served, who) {
      var y :| y in served && y != [] && AckKey(y, who) == AckKey(x, who);
      KeysIsolatePairs(x, who, y, who);
    }
  }

  /** Waiting never adds to the pending list. */
  lemma WaitingNeverAdds(q: Queue, p: Progress, now: Time, later: Time)
    requires now <= later
    ensures Elements(Pending(q, p, later)) <= Elements(Pending(q, p, now))
    ensures |Pending(q, p, later)| <= |Pending(q, p, now)|
  {
    hide DigestBytes; hide Compare; hide Unacked; hide AckKey;
    UnackedIsIdList(q.view, p.acks, q.recipient, q.identity, now);
    UnackedIsIdList(q.view, p.acks, q.recipient, q.identity, later);
    var a, b := Pending(q, p, now), Pending(q, p, later);
    SortedDistinct(a); SortedDistinct(b);
    DistinctCount(a); DistinctCount(b);
    SubsetSize(Elements(b), Elements(a));
  }

  lemma {:induction false} SubsetSize<T>(a: set<T>, b: set<T>)
    requires a <= b
    ensures |a| <= |b|
  {
    assert b == a + (b - a);
    assert |b| == |a| + |b - a|;
  }

  // ---- whole sessions

  /** When a round's summary is built and when the request for it is handled. */
  datatype Clock = Clock(built: Time, asked: Time)

  ghost predicate Ascending(clocks: seq<Clock>)
  {
    && (forall i | 0 <= i < |clocks| :: clocks[i].built <= clocks[i].asked)
    && (forall i, j | 0 <= i < j < |clocks| :: clocks[i].asked <= clocks[j].built)
  }

  ghost function Rounds(q: Queue, p: Progress, clocks: seq<Clock>): Progress
    decreases |clocks|
  {
    if clocks == [] then p else Rounds(q, Round(q, p, clocks[0].built, clocks[0].asked), clocks[1..])
  }

  /** No round stalls. */
  ghost predicate Flows(q: Queue, p: Progress, clocks: seq<Clock>)
    decreases |clocks|
  {
    clocks != [] ==>
      && !Stalls(q, p, clocks[0].built, clocks[0].asked)
      && Flows(q, Round(q, p, clocks[0].built, clocks[0].asked), clocks[1..])
  }

  /** While no round stalls each shrinks the pending list, so n pending items are drained within
      n rounds, whatever clock and cursor do: the summary after them has item count zero. */
  lemma {:induction false} DrainConverges(q: Queue, p: Progress, clocks: seq<Clock>, later: Time)
    requires q.identity != [] && clocks != [] && Ascending(clocks) && clocks[|clocks| - 1].asked <= later
    requires Flows(q, p, clocks)
    ensures var n := |Pending(q, p, clocks[0].built)|;
            && |Pending(q, Rounds(q, p, clocks), later)| <= (if n < |clocks| then 0 else n - |clocks|)
            && (n <= |clocks| ==> Pending(q, Rounds(q, p, clocks), later) == [])
    decreases |clocks|
  {
    hide Pending; hide Round; hide Stalls;
    var c := clocks[0];
    var p1 := Round(q, p, c.built, c.asked);
    RoundShrinks(q, p, c.built, c.asked);
    if |clocks| == 1 {
      assert Rounds(q, p, clocks) == p1 by { assert clocks[1..] == []; }
      WaitingNeverAdds(q, p1, c.built, later);
    } else {
      assert clocks[1] == clocks[1..][0];
      WaitingNeverAdds(q, p1, c.built, clocks[1].built);
      DrainConverges(q, p1, clocks[1..], later);
    }
  }

  /** With the clock of the summaries standing still k rounds remove at most 32k items. */
  lemma {:induction false} NoItemIsDropped(q: Queue, p: Progress, now: Time, clocks: seq<Clock>)
    requires q.identity != [] && forall i | 0 <= i < |clocks| :: clocks[i].built == now
    ensures |Pending(q, Rounds(q, p, clocks), now)| >= |Pending(q, p, now)| - MAX_TRANSFER * |clocks|
    decreases |clocks|
  {
    hide Pending; hide Round; hide Served; hide Stalls;
    if clocks != [] {
      RoundShrinks(q, p, now, clocks[0].asked);
      NoItemIsDropped(q, Round(q, p, now, clocks[0].asked), now, clocks[1..]);
    }
  }

  /** Those of `ids` that are eligible when a summary is built are still servable when the request
      is handled. */
  ghost predicate StaysServable(q: Queue, ids: seq<Str>, now: Time, asked: Time)
  {
    forall x | x in ids && x in EligibleFor(q.view, q.recipient, now) :: ServableAt(q, asked, x)
  }

  lemma NoStallWhileServable(q: Queue, p: Progress, now: Time, asked: Time)
    requires StaysServable(q, Pending(q, p, now), now, asked)
    ensures !Stalls(q, p, now, asked)
  {
    hide ServableAt; hide Unacked; hide EligibleFor; hide Previewed; hide DigestBytes; hide AckKey; hide IdList;
    hide AllDigests;
    PreviewedIds(q, p, now);
    UnackedIsIdList(q.view, p.acks, q.recipient, q.identity, now);
    SomeMember(Previewed(q, p, now));
  }

  // ---- the handlers themselves

  const ALL_READS := Reads(true, true, (_: Str) => true)

  /** A summary and a transfer that a drain over `ids` can send. */
  ghost predicate SummaryOver(s: Summary, ids: seq<Str>)
  {
    && |s.bloom| == FILTER_BYTES && s.itemCount <= |ids| && |s.preview| <= MAX_PREVIEW
    && CursorFits(s.preview, s.cursor) && forall x | x in s.preview :: x in ids
  }

  ghost predicate TransferOver(items: seq<TransferObject>, load: Str -> Loaded, ids: seq<Str>)
  {
    |items| <= MAX_TRANSFER && forall o | o in items :: exists x | x in ids :: load(x) == Found(o)
  }

  /** Loading is sound and does not fail for `ids`, and every frame over them fits. */
  ghost predicate Servicing(w: World, load: Str -> Loaded, ids: seq<Str>)
  {
    && (forall x | x in ids :: load(x) != LoadFailed && (load(x).Found? ==> load(x).item.itemId == x))
    && FramesFit(w, load, ids)
  }

  ghost predicate FramesFit(w: World, load: Str -> Loaded, ids: seq<Str>)
  {
    && (forall s: Summary | SummaryOver(s, ids) :: WireSize(w, SummaryFrame(s)).Some?)
    && (forall items | TransferOver(items, load, ids) :: WireSize(w, TransferFrame(items)).Some?)
  }

  ghost predicate Unlimited(session: ClientSession)
    reads session, session.drain
  {
    D.Unlimited(session.drain.state, session.drain.limits)
  }

  ghost predicate Ready(session: ClientSession)
    reads session, session.store, session.drain
  {
    && session.Valid() && session.identity != [] && session.recipient != []
    && (session.cursor == [] || IsDigest(session.cursor)) && Unlimited(session)
  }

  /** `last` is the summary just sent at `now`, after cursor `before`. */
  ghost predicate Summarized(session: ClientSession, last: Summary, before: Str, now: Time)
    reads session, session.store, session.acks, session.drain
  {
    && Ready(session)
    && last.itemCount == |session.Pending(now)| && last.preview == Preview(session.Pending(now), before)
  }

  lemma {:induction false} ItemsLoaded(load: Str -> Loaded, ids: seq<Str>, all: seq<Str>)
    requires forall x | x in ids :: x in all
    ensures |Items(load, ids)| <= |ids|
    ensures forall o | o in Items(load, ids) :: exists x | x in all :: load(x) == Found(o)
    ensures (forall x | x in ids :: load(x).Found?) ==> |Items(load, ids)| == |ids|
  {
    if ids != [] {
      var rest, id := ids[..|ids| - 1], ids[|ids| - 1];
      assert ids == rest + [id];
      assert id in ids;
      ItemsLoaded(load, rest, all);
    }
  }

  /** The request for the preview is answered with what the round serves. */
  lemma AnswerOfRound(w: World, q: Queue, p: Progress, now: Time, asked: Time, all: seq<Str>)
    requires Servicing(w, q.load, all) && forall x | x in Pending(q, p, now) :: x in all
    ensures var preview := Previewed(q, p, now);
            var items := ServedItems(q.load, q.recipient, asked / MILLISECOND, preview);
            && !LookupFails(q.load, q.recipient, asked / MILLISECOND, preview)
            && Ids(items) == Served(q, p, now, asked) && WireSize(w, TransferFrame(items)).Some?
  {
    hide Previewed; hide Pending; hide IdList; hide AllDigests; hide TransferPayload; hide WireSize; hide Filter;
    var preview, ms := Previewed(q, p, now), asked / MILLISECOND;
    var served := Served(q, p, now, asked);
    PreviewedIds(q, p, now);
    ServedIds(q, p, now, asked);
    FilterAgree(preview, x => ServableAt(q, asked, x), x => Servable(q.load, q.recipient, ms, x));
    assert ServedItems(q.load, q.recipient, ms, preview) == Items(q.load, served);
    IdsOfItems(q.load, served);
    ItemsLoaded(q.load, served, all);
    assert TransferOver(Items(q.load, served), q.load, all);
  }

  /** Acknowledging what a round served marks all of it, and leaves fewer pending. */
  lemma ReceiptOfRound(q: Queue, p: Progress, now: Time, asked: Time, later: Time)
    requires q.identity != [] && now <= asked <= later && Served(q, p, now, asked) != []
    ensures var served := Served(q, p, now, asked);
            var (acks', marked) := MarkEach(p.acks, served, q.identity);
            var left := Pending(q, p.(acks := acks'), later);
            && CountMarked(served, marked) > 0
            && |left| < |Pending(q, p, now)| && (forall x | x in left :: x in Pending(q, p, now))
            && p.acks <= acks' <= p.acks + KeysOf(Pending(q, p, now), q.identity)
  {
    hide Unacked; hide EligibleFor; hide DigestBytes; hide Compare; hide MarkEach; hide Served; hide AckKey;
    hide NextCursor; hide Stalls;
    var ids, served := Pending(q, p, now), Served(q, p, now, asked);
    ServedIds(q, p, now, asked);
    UnackedIsIdList(q.view, p.acks, q.recipient, q.identity, now);
    MarkEachResult(p.acks, served, q.identity);
    RoundShrinks(q, p, now, asked);
    WaitingNeverAdds(q, Round(q, p, now, asked), now, later);
    var marked := MarkEach(p.acks, served, q.identity).1;
    assert served[0] in served && served[0] in marked;
    FirstCounts(served, marked);
    KeysOfPart(served, ids, q.identity);
    var left := Pending(q, p.(acks := Round(q, p, now, asked).acks), later);
    assert left == Pending(q, Round(q, p, now, asked), later);
    forall x | x in left ensures x in ids { assert x in Elements(left); }
  }

  lemma FirstCounts(ids: seq<Str>, marked: set<Str>)
    requires ids != [] && ids[0] in marked
    ensures CountMarked(ids, marked) > 0
  {
  }

  lemma KeysOfPart(part: seq<Str>, whole: seq<Str>, who: Str)
    requires forall x | x in part :: x in whole
    ensures KeysOf(part, who) <= KeysOf(whole, who)
  {
  }

  /** What an unlimited session does with a summary that fits. */
  lemma SummaryGoesOut(
    w: World, s: D.State, l: D.Limits, summary: Summary, ids: seq<Str>, all: seq<Str>, empty: bool, clock: int)
    requires D.Unlimited(s, l) && WellBuilt(w, summary, ids) && summary.itemCount == |ids|
    requires |ids| <= |all| && (forall x | x in summary.preview :: x in all)
    requires forall s: Summary | SummaryOver(s, all) :: WireSize(w, SummaryFrame(s)).Some?
    ensures var (s', v) := SummaryRound(s, l, true, empty, WireSize(w, SummaryFrame(summary)), true, clock);
            v.Sent? && D.Unlimited(s', l) && D.CanStart(s, l, clock).1
  {
    hide SummaryRound; hide WireSize; hide SummaryPayload; hide SortedDigests; hide IsSet;
    assert SummaryOver(summary, all);
    UnlimitedHandlers(s, l, WireSize(w, SummaryFrame(summary)), clock);
    D.UnlimitedStep(s, l, D.AskStart(clock));
  }

  /** The queue and the progress of a session. */
  ghost function QueueOf(session: ClientSession, load: Str -> Loaded): Queue
    reads session, session.store
  {
    Queue(session.store.Contents(), session.recipient, session.identity, load)
  }

  ghost predicate Within(session: ClientSession, now: Time, all: seq<Str>)
    reads session, session.store, session.acks
  {
    |session.Pending(now)| <= |all| && forall x | x in session.Pending(now) :: x in all
  }

  /** After a summary handler of an unlimited session, with working stores and a free queue, the
      summary is out. */
  lemma SummaryStepSends(
    session: ClientSession, load: Str -> Loaded, s0: D.State, from: Str, now: Time, clock: int, summary: Summary,
    reply: Reply, all: seq<Str>)
    requires session.Valid() && session.identity != [] && session.recipient != []
    requires (session.cursor == [] || IsDigest(session.cursor)) && D.Unlimited(s0, session.drain.limits)
    requires session.SummaryStep(s0, from, now, clock, ALL_READS, true, summary, reply)
    requires Servicing(session.w, load, all) && Within(session, now, all)
    ensures reply == SendSummary(summary) && Summarized(session, summary, from, now)
  {
    hide SummaryRound; hide WireSize; hide SummaryPayload; hide WellBuilt; hide Preview; hide NextCursor;
    hide Unacked; hide IsDigest;
    hide EligibleFor; hide Enumerate; hide D.Unlimited; hide D.CanStart; hide TransferOver; hide Compare;
    hide Ordered.After;
    var ids := session.Pending(now);
    UnlimitedGate(s0, session.drain.limits, clock);
    assert session.Listable(from, now, ALL_READS);
    var q := QueueOf(session, load);
    PreviewedIds(q, Progress(session.acks.acks, from), now);
    SummaryGoesOut(session.w, s0, session.drain.limits, summary, ids, all, ids == [], clock);
  }

  lemma UnlimitedGate(s: D.State, l: D.Limits, clock: int)
    requires D.Unlimited(s, l)
    ensures D.CanStart(s, l, clock).1
  {
  }

  /** One round through the handlers, the request handled at `asked`: a next summary follows iff
      something previewed is still servable then, and it counts fewer items; otherwise the
      session idles with nothing acknowledged, sent or expected. */
  method DriveRound(
    session: ClientSession, load: Str -> Loaded, last: Summary, ghost before: Str, now: Time, asked: Time, later: Time,
    clock: int, ghost all: seq<Str>)
    returns (next: Option<Summary>)
    requires Summarized(session, last, before, now) && last.itemCount > 0 && now <= asked <= later
    requires Servicing(session.w, load, all) && Within(session, now, all)
    modifies session, session.acks, session.drain, session.adapter
    ensures next.Some? <==> exists x | x in last.preview :: Servable(load, session.recipient, asked / MILLISECOND, x)
    ensures next.None? ==>
              && session.acks.acks == old(session.acks.acks) && session.cursor == old(session.cursor)
              && session.adapter.Abs() == old(session.adapter.Abs()) && Summarized(session, last, before, now)
    ensures next.Some? ==>
              && Summarized(session, next.value, old(session.cursor), later)
              && next.value.itemCount < last.itemCount
              && old(session.acks.acks) <= session.acks.acks
                 <= old(session.acks.acks) + KeysOf(old(session.Pending(now)), session.identity)
              && (forall x | x in session.Pending(later) :: x in old(session.Pending(now)))
    ensures session.store.Contents() == old(session.store.Contents())
  {
    hide Servable; hide Unacked; hide Preview; hide IsDigest; hide MarkEach; hide Served; hide KeysOf; hide D.Unlimited;
    hide ClientSession.Valid; hide Servicing; hide Stalls; hide IdList; hide AllDigests;
    ghost var q, p := QueueOf(session, load), Progress(session.acks.acks, before);
    ServedIds(q, p, now, asked);
    StallMeans(q, p, now, asked);
    var served := AnswerRequest(session, load, last, before, now, asked, clock, all);
    if |served| == 0 { return None; }
    var summary := TakeReceipt(session, load, served, before, now, asked, later, clock, all);
    return Some(summary);
  }

  /** The request for the preview is answered with what the round serves, if anything. */
  method AnswerRequest(
    session: ClientSession, load: Str -> Loaded, last: Summary, ghost before: Str, now: Time, asked: Time, clock: int,
    ghost all: seq<Str>)
    returns (served: seq<Str>)
    requires Summarized(session, last, before, now) && last.itemCount > 0
    requires Servicing(session.w, load, all) && Within(session, now, all)
    modifies session.drain, session.adapter
    ensures served == Served(QueueOf(session, load), Progress(session.acks.acks, before), now, asked)
    ensures Summarized(session, last, before, now)
    ensures served == [] ==> session.adapter.Abs() == old(session.adapter.Abs())
    ensures served != [] ==> session.adapter.Abs() == SetExpected(old(session.adapter.Abs()), served)
  {
    hide Servable; hide Unacked; hide Preview; hide IsDigest; hide Served; hide D.CanStart; hide D.Step; hide Ids;
    hide D.Unlimited;
    hide ClientSession.Valid; hide RequestRound; hide Serves; hide WireSize; hide TransferPayload; hide ServedItems;
    hide LookupFails;
    hide Servicing; hide Stalls; hide IdList; hide AllDigests; hide SetExpected;
    ghost var q, p := QueueOf(session, load), Progress(session.acks.acks, before);
    PreviewedIds(q, p, now);
    AnswerOfRound(session.w, q, p, now, asked, all);
    ghost var items := ServedItems(load, session.recipient, asked / MILLISECOND, last.preview);
    UnlimitedRequest(session.drain.state, session.drain.limits, |last.preview|, |items|,
                     WireSize(session.w, TransferFrame(items)), clock);
    IdsCount(items);
    var answer := session.HandleRequest(last.preview, load, asked / MILLISECOND, clock, true);
    return if answer.Nothing? then [] else Ids(answer.items);
  }

  lemma StallMeans(q: Queue, p: Progress, now: Time, asked: Time)
    ensures Pending(q, p, now) != [] ==>
              (Stalls(q, p, now, asked) <==>
                 !exists x | x in Previewed(q, p, now) :: Servable(q.load, q.recipient, asked / MILLISECOND, x))
  {
    hide Servable; hide Pending; hide Previewed;
  }

  /** The receipt for everything the round served leads to the next summary. */
  method TakeReceipt(
    session: ClientSession, load: Str -> Loaded, served: seq<Str>, ghost before: Str, now: Time, asked: Time,
    later: Time, clock: int, ghost all: seq<Str>)
    returns (next: Summary)
    requires Ready(session) && Servicing(session.w, load, all) && Within(session, now, all) && now <= asked <= later
    requires served == Served(QueueOf(session, load), Progress(session.acks.acks, before), now, asked) && served != []
    modifies session, session.acks, session.drain
    ensures Summarized(session, next, old(session.cursor), later)
    ensures next.itemCount < |old(session.Pending(now))|
    ensures old(session.acks.acks) <= session.acks.acks
            <= old(session.acks.acks) + KeysOf(old(session.Pending(now)), session.identity)
    ensures forall x | x in session.Pending(later) :: x in old(session.Pending(now))
    ensures session.store.Contents() == old(session.store.Contents())
  {
    hide Unacked; hide Preview; hide IsDigest; hide MarkEach; hide Served; hide D.CanStart; hide D.Step; hide KeysOf;
    hide CountMarked;
    hide D.Unlimited; hide ClientSession.Valid; hide WireSize; hide Servicing; hide ClientSession.SummaryStep;
    hide DrainHandlers.Settle;
    hide IdList; hide AllDigests; hide NextCursor;
    ghost var q, p := QueueOf(session, load), Progress(session.acks.acks, before);
    UnlimitedSettle(session.drain.state, session.drain.limits, clock);
    ReceiptOfRound(q, p, now, asked, later);
    ghost var start, s0 := session.cursor, session.drain.state;
    ghost var count := CountMarked(served, MarkEach(p.acks, served, q.identity).1);
    var reply, summary := session.HandleReceipt(served, later, clock, true, ALL_READS, true);
    SummaryStepSends(session, load, DrainHandlers.Settle(s0, session.drain.limits, count, clock), start, later, clock,
                     summary, reply, all);
    return reply.summary;
  }

  lemma IdsCount(items: seq<TransferObject>)
    ensures |Ids(items)| == |items|
  {
  }

  lemma UnlimitedSettle(s: D.State, l: D.Limits, clock: int)
    requires D.Unlimited(s, l)
    ensures forall count: nat :: D.Unlimited(DrainHandlers.Settle(s, l, count, clock), l)
  {
  }

  /** A whole drain through the handlers, summary i built at `at(i)` and the request for it
      handled at `asked(i)`. Within as many rounds as items were pending it either ends with a
      summary of nothing or stalls: nothing of the last preview was servable when requested. It
      never stalls if what is eligible at a summary stays servable until the request. Only
      items that were pending get acknowledged. */
  method DrainAll(session: ClientSession, load: Str -> Loaded, at: nat -> Time, asked: nat -> Time, clock: int)
    returns (rounds: nat, last: Summary)
    requires Ready(session) && Servicing(session.w, load, session.Pending(at(0)))
    requires forall i: nat :: at(i) <= asked(i) <= at(i + 1)
    modifies session, session.acks, session.drain, session.adapter
    ensures session.Valid() && rounds <= |old(session.Pending(at(0)))|
    ensures last.itemCount == |session.Pending(at(rounds))|
    ensures last.itemCount > 0 ==>
              && last.preview != [] && (forall x | x in last.preview :: x in session.Pending(at(rounds)))
              && forall x | x in last.preview :: !Servable(load, session.recipient, asked(rounds) / MILLISECOND, x)
    ensures (forall i: nat ::
               StaysServable(old(QueueOf(session, load)), old(session.Pending(at(0))), at(i), asked(i))) ==>
              last.itemCount == 0
    ensures old(session.acks.acks) <= session.acks.acks
    ensures session.acks.acks <= old(session.acks.acks) + KeysOf(old(session.Pending(at(0))), session.identity)
  {
    hide Servable; hide Unacked; hide EligibleFor; hide Preview; hide DigestBytes; hide Compare; hide MarkEach;
    hide AckKey;
    hide NextCursor; hide WellBuilt; hide D.CanStart; hide D.Step; hide Filter; hide D.Unlimited; hide Servicing;
    hide SummaryRound;
    hide KeysOf; hide StaysServable; hide DrainHandlers.Settle; hide WireSize; hide ClientSession.SummaryStep;
    ghost var q, pending := QueueOf(session, load), session.Pending(at(0));
    ghost var before, s0 := session.cursor, session.drain.state;
    var reply, summary := session.SendDrainSummary(at(0), clock, ALL_READS, true);
    SummaryStepSends(session, load, s0, before, at(0), clock, summary, reply, pending);
    rounds, last := 0, reply.summary;
    while last.itemCount > 0
      invariant Summarized(session, last, before, at(rounds)) && QueueOf(session, load) == q
      invariant rounds + last.itemCount <= |pending| && Within(session, at(rounds), pending)
      invariant old(session.acks.acks) <= session.acks.acks
                <= old(session.acks.acks) + KeysOf(pending, session.identity)
      decreases last.itemCount
    {
      ghost var start := session.cursor;
      KeysOfPart(session.Pending(at(rounds)), pending, session.identity);
      StallOrPreview(q, Progress(session.acks.acks, before), pending, at(rounds), asked(rounds));
      PreviewedIds(q, Progress(session.acks.acks, before), at(rounds));
      var next := DriveRound(session, load, last, before, at(rounds), asked(rounds), at(rounds + 1), clock, pending);
      if next.None? { return; }
      last, before, rounds := next.value, start, rounds + 1;
    }
  }

  lemma StallOrPreview(q: Queue, p: Progress, all: seq<Str>, now: Time, asked: Time)
    requires Pending(q, p, now) != [] && forall x | x in Pending(q, p, now) :: x in all
    ensures Previewed(q, p, now) != []
    ensures StaysServable(q, all, now, asked) ==> exists x | x in Previewed(q, p, now) :: ServableAt(q, asked, x)
  {
    hide ServableAt; hide Previewed; hide Pending; hide EligibleFor;
    PreviewedIds(q, p, now);
    if StaysServable(q, all, now, asked) { NoStallWhileServable(q, p, now, asked); }
  }

  // ---- coverage without acknowledgements

  /** While nothing is acknowledged, every pending id is previewed within ceil(n/64) + 1
      summaries from any cursor, and only pending ids ever are. */
  lemma PendingIsCovered(q: Queue, p: Progress, now: Time, x: Str)
    ensures var ids := Pending(q, p, now);
            && (x in ids ==>
                  exists k: nat | k < CallsFor(|ids|) + 1 :: x in Preview(ids, CursorAfter(ids, p.cursor, k)))
            && (forall k: nat :: x in Preview(ids, CursorAfter(ids, p.cursor, k)) ==>
                  x in EligibleFor(q.view, q.recipient, now) && (q.identity != [] ==> AckKey(x, q.identity) !in p.acks))
            && (forall k: nat :: Preview(ids, CursorAfter(ids, p.cursor, k)) == [] <==> ids == [])
  {
    hide Unacked; hide EligibleFor; hide Preview; hide DigestBytes; hide Compare; hide CursorAfter; hide AckKey;
    hide Position; hide NextCursor;
    var ids := Pending(q, p, now);
    UnackedIsIdList(q.view, p.acks, q.recipient, q.identity, now);
    if x in ids {
      var i :| 0 <= i < |ids| && ids[i] == x;
      EveryIdIsPreviewed(ids, p.cursor, i);
      PositionBound(ids, p.cursor);
      var k := CallFor(|ids|, Position(ids, p.cursor), i);
      assert x in Preview(ids, CursorAfter(ids, p.cursor, k));
    }
    forall k: nat ensures x in Preview(ids, CursorAfter(ids, p.cursor, k)) ==> x in ids {
      PreviewSelects(ids, CursorAfter(ids, p.cursor, k));
    }
    forall k: nat ensures Preview(ids, CursorAfter(ids, p.cursor, k)) == [] <==> ids == [] {
      PreviewIsStretch(ids, CursorAfter(ids, p.cursor, k));
    }
  }
}
