/** Repeated encounters of two relays (internal/federation/peering.go): each connection carries one
    summary, which previews the first 64 eligible ids without a cursor. */
module Encounters {
  import opened ByteStrings
  import opened GossipLimits
  import opened Ordered
  import opened Digest
  import opened Rfc3339
  import opened Envelopes
  import opened EnvelopeTables
  import opened EnvelopeStores
  import opened Protocol
  import opened Transfer
  import opened RelayObject
  import opened Lockstep
  import opened Exchange
  import DrainLoop
  import Want
  import Base64Url

  /** One connection: when the giver's summary is built, when the request for it is handled, and
      what the asker's surroundings do. */
  datatype Meeting = Meeting(now: Time, asked: Time, summary: Summary, choice: Choice, origin: Str)

  ghost function Asked(w: World, asker: Peer, m: Meeting): seq<Str> { WantFor(w, asker, m.summary, m.choice.messages) }

  ghost function Given(w: World, giver: Tables, asker: Peer, m: Meeting): seq<TransferObject>
  {
    ObjectsFor(w, giver, Asked(w, asker, m), m.asked)
  }

  ghost function Met(w: World, giver: Tables, asker: Peer, m: Meeting): Peer
  {
    var parsed := ParseList(w, WireObjects(Given(w, giver, asker, m))).objects;
    asker.(tables := TakeIn(w, asker.tables, parsed, m.choice, m.origin).0)
  }

  /** What a summary of the giver previews. */
  ghost function First(giver: Tables, now: Time): seq<Str> { Take(Enumerate(Eligible(View(giver), now)), MAX_PREVIEW) }

  // ---- the preview does not move

  /** As long as the first 64 stay eligible, they are what is previewed. */
  lemma PreviewStays(giver: Tables, start: Time, now: Time)
    requires start <= now && forall x | x in First(giver, start) :: x in Eligible(View(giver), now)
    ensures First(giver, now) == First(giver, start)
  {
    hide View; hide Enumerate; hide IsDigest; hide Compare;
    var all, left := Enumerate(Eligible(View(giver), start)), Enumerate(Eligible(View(giver), now));
    var f := First(giver, start);
    forall x | x in f ensures x in Elements(left) { assert x in Eligible(View(giver), now); }
    forall x, y | x in f && y in left && y !in f ensures Less(x, y) {
      assert y in Elements(left);
      assert y in Eligible(View(giver), start);
      assert y in Elements(all);
      LaterInList(all, x, y);
    }
    SelectionIsPrefix(f, left);
    if |f| < MAX_PREVIEW {
      forall y | y in left ensures y in f { assert y in Elements(left); assert y in Elements(all); }
      PrefixIsAll(f, left);
    }
  }

  lemma LaterInList(all: seq<Str>, x: Str, y: Str)
    requires Sorted(all) && x in Take(all, MAX_PREVIEW) && y in all && y !in Take(all, MAX_PREVIEW)
    ensures Less(x, y)
  {
    hide Compare;
    var i :| 0 <= i < |Take(all, MAX_PREVIEW)| && Take(all, MAX_PREVIEW)[i] == x;
    var j :| 0 <= j < |all| && all[j] == y;
    InTake(all, j);
    assert all[i] == x && i < j;
  }

  lemma InTake(all: seq<Str>, j: nat)
    requires j < |all|
    ensures j < |Take(all, MAX_PREVIEW)| ==> all[j] in Take(all, MAX_PREVIEW)
  {
    if j < |Take(all, MAX_PREVIEW)| { assert Take(all, MAX_PREVIEW)[j] == all[j]; }
  }

  lemma PrefixIsAll(f: seq<Str>, s: seq<Str>)
    requires f <= s && Sorted(s) && forall y | y in s :: y in f
    ensures f == s
  {
    NextIsNew(f, s);
  }

  lemma NextIsNew(f: seq<Str>, s: seq<Str>)
    requires f <= s && Sorted(s)
    ensures |f| < |s| ==> s[|f|] in s && s[|f|] !in f
  {
    if |f| < |s| {
      forall i | 0 <= i < |f| ensures f[i] != s[|f|] { SortedIndex(s, i, |f|); }
    }
  }

  // ---- nothing beyond the preview is asked for

  /** An id outside the preview is not requested, whatever else the giver holds. */
  lemma OnlyPreviewedAreAsked(w: World, giver: Tables, asker: Peer, m: Meeting, x: Str)
    requires OwnSummary(w, giver, m.now, m.summary)
    ensures x in Asked(w, asker, m) ==> x in First(giver, m.now)
  {
    hide View; hide Enumerate; hide IsDigest; hide Want.Chosen; hide Want.Wanted; hide WellBuilt;
    PreviewInStore(w, giver, m.now, m.summary);
    var known := KnownIn(asker.tables, m.choice.messages);
    var max := if asker.remote.Some? then asker.remote.value.maxWant else 0;
    SortedDistinct(m.summary.preview);
    Want.WantMeetsSpec(m.summary.preview, [], y => Want.Wanted(w.sha, m.summary.bloom, known, y), Want.Limit(max));
  }

  /** While the first 64 of some moment stay eligible, no id of a later rank is ever requested. */
  lemma LaterRanksAreNeverAsked(w: World, giver: Tables, asker: Peer, start: Time, m: Meeting, x: Str)
    requires OwnSummary(w, giver, m.now, m.summary) && start <= m.now
    requires (forall y | y in First(giver, start) :: y in Eligible(View(giver), m.now)) && x !in First(giver, start)
    ensures x !in Asked(w, asker, m)
  {
    hide View; hide First; hide Asked; hide OwnSummary; hide Eligible;
    PreviewStays(giver, start, m.now);
    OnlyPreviewedAreAsked(w, giver, asker, m, x);
  }

  // ---- what each meeting brings

  /** What the asker lacks of the preview; `messages` are those it holds without an envelope. */
  ghost function Lacking(asker: Peer, messages: set<Str>, f: seq<Str>): seq<Str>
  {
    var view := View(asker.tables);
    Filter(f, x => x !in view && x !in messages)
  }

  /** A meeting over the previewed ids `f`: those the asker lacks are alive and welcome, and its
      message store knows of no other ids of `f` than `messages` and what its envelope store holds. */
  ghost predicate GoodMeeting(w: World, giver: Tables, asker: Peer, f: seq<Str>, messages: set<Str>, m: Meeting)
  {
    && OwnSummary(w, giver, m.now, m.summary) && First(giver, m.now) == f
    && (forall x | x in f && x in View(giver) && x !in View(asker.tables) && x !in messages ::
          m.asked < View(giver)[x].expires && Load(w, View(giver), x).Found?
          && Welcome(w, Load(w, View(giver), x).item, m.choice, m.origin))
    && (forall x | x in f && x !in View(asker.tables) :: x in m.choice.messages <==> x in messages)
  }

  /** Every previewed object fits a transfer by itself. */
  ghost predicate EachFits(giver: Tables, f: seq<Str>, limit: nat)
  {
    forall x | x in f && x in View(giver) :: |View(giver)[x].payload| <= limit
  }

  lemma {:induction false} FilterNone<T>(s: seq<T>, p: T -> bool)
    requires forall x | x in s :: !p(x)
    ensures Filter(s, p) == []
  {
    if s != [] {
      assert s[0] in s;
      FilterNone(s[1..], p);
    }
  }

  /** Taking a beginning of a list of distinct ids away leaves the rest. */
  lemma WithoutPrefix(s: seq<Str>, k: nat, p: Str -> bool)
    requires Distinct(s) && k <= |s| && forall x | x in s :: p(x) <==> x !in s[..k]
    ensures Filter(s, p) == s[k..]
  {
    hide Filter;
    assert s == s[..k] + s[k..];
    FilterAppend(s[..k], s[k..], p);
    forall x | x in s[k..] ensures p(x) {
      var j :| 0 <= j < |s[k..]| && s[k..][j] == x;
      assert s[k + j] == x;
    }
    FilterAll(s[k..], p);
    FilterNone(s[..k], p);
  }

  /** The objects given are those loaded for the first 32 ids the asker lacks. */
  lemma GivenObjects(w: World, giver: Tables, asker: Peer, f: seq<Str>, messages: set<Str>, m: Meeting)
    requires HoldsServable(w, View(giver)) && GoodMeeting(w, giver, asker, f, messages, m)
    requires asker.remote.Some? && asker.remote.value.maxWant == MAX_WANT
    ensures var objects, lacking := Given(w, giver, asker, m), Lacking(asker, messages, f);
            && DrainLoop.Ids(objects) == Take(lacking, MAX_TRANSFER)
            && (forall i | 0 <= i < |objects| ::
                  && objects[i].itemId in f && objects[i].itemId in View(giver)
                  && objects[i].itemId !in View(asker.tables) && objects[i].itemId !in messages)
            && Take(Filter(f, x => Missing(asker.tables, m.choice.messages, View(giver), m.asked, x)), MAX_TRANSFER)
               == Take(lacking, MAX_TRANSFER)
  {
    hide View; hide Load; hide Welcome; hide HoldsServable; hide Filter; hide WantFor; hide ObjectsFor;
    hide WellBuilt; hide Enumerate;
    hide Eligible;
    var view, mine := View(giver), View(asker.tables);
    HonestAnswer(w, giver, asker, m.now, m.asked, m.summary, m.choice.messages);
    PreviewInStore(w, giver, m.now, m.summary);
    assert m.summary.preview == f;
    var missing := x => Missing(asker.tables, m.choice.messages, view, m.asked, x);
    FilterAgree(f, missing, x => x !in mine && x !in messages);
    var objects := Given(w, giver, asker, m);
    FilterMember(f, x => x !in mine && x !in messages);
    var lacking := Lacking(asker, messages, f);
    forall i | 0 <= i < |objects|
      ensures objects[i].itemId in f && objects[i].itemId !in mine && objects[i].itemId !in messages
    {
      assert DrainLoop.Ids(objects)[i] == objects[i].itemId;
      assert Take(lacking, MAX_TRANSFER)[i] == lacking[i];
      assert lacking[i] in lacking;
    }
  }

  lemma LoadedBytes(w: World, view: map<Str, Envelope>, id: Str)
    requires Load(w, view, id).Found?
    ensures id in view && DecodeRaw(Load(w, view, id).item.envelopeB64) == Some(view[id].payload)
  {
    hide IsDigest; hide ItemIdOf; hide DecodeRaw; hide Base64Url.Encode;
    CanonicalText(view[id].payload);
  }

  lemma {:induction false} BytesBound(items: seq<TransferObject>, n: nat, limit: nat)
    requires n <= |items|
    requires forall i | 0 <= i < |items| ::
               DecodeRaw(items[i].envelopeB64).Some? && |DecodeRaw(items[i].envelopeB64).value| <= limit
    ensures EnvelopeBytes(items, n) <= limit * n
    decreases n
  {
    hide DecodeRaw;
    if n > 0 {
      BytesBound(items, n - 1, limit);
      assert limit * n == limit * (n - 1) + limit;
    }
  }

  /** Thirty-two envelopes of this size keep to the byte budget. */
  const SMALL: nat := 16384

  /** How many of the given objects are taken: all if the envelopes are small, one at least if
      each fits. */
  lemma TakenCount(w: World, giver: Tables, items: seq<TransferObject>, f: seq<Str>)
    requires |items| <= MAX_TRANSFER
    requires forall i | 0 <= i < |items| ::
               items[i].itemId in f && Load(w, View(giver), items[i].itemId) == DrainLoop.Found(items[i])
    ensures var k := FitCount(items, |items|);
            && (EachFits(giver, f, MAX_TRANSFER_BYTES) && items != [] ==> k > 0)
            && (EachFits(giver, f, SMALL) ==> k == |items|)
  {
    hide View; hide Load; hide DecodeRaw; hide EnvelopeBytes;
    forall i | 0 <= i < |items|
      ensures items[i].itemId in View(giver)
      ensures DecodeRaw(items[i].envelopeB64) == Some(View(giver)[items[i].itemId].payload)
    {
      LoadedBytes(w, View(giver), items[i].itemId);
    }
    if EachFits(giver, f, MAX_TRANSFER_BYTES) && items != [] {
      BytesBound(items, 1, MAX_TRANSFER_BYTES);
      FitMeans(items, |items|, 0);
    }
    if EachFits(giver, f, SMALL) { BytesBound(items, |items|, SMALL); }
  }

  /** One meeting brings the asker a beginning of what it lacks: at most 32 ids, one at least if
      each object fits, all up to 32 if they are small. */
  lemma MeetingBrings(w: World, giver: Tables, asker: Peer, f: seq<Str>, messages: set<Str>, m: Meeting)
    returns (k: nat)
    requires HoldsServable(w, View(giver)) && Agrees(asker.tables) && GoodMeeting(w, giver, asker, f, messages, m)
    requires asker.remote.Some? && asker.remote.value.maxWant == MAX_WANT
    ensures var lacking, after := Lacking(asker, messages, f), Met(w, giver, asker, m);
            && k <= |lacking| && k <= MAX_TRANSFER
            && Agrees(after.tables) && View(after.tables).Keys == View(asker.tables).Keys + Elements(lacking[..k])
            && Lacking(after, messages, f) == lacking[k..]
            && (EachFits(giver, f, MAX_TRANSFER_BYTES) && lacking != [] ==> k > 0)
            && (EachFits(giver, f, SMALL) ==> k == |Take(lacking, MAX_TRANSFER)|)
  {
    hide View; hide Load; hide Welcome; hide HoldsServable; hide Filter; hide WantFor; hide ObjectsFor;
    hide OwnSummary; hide First;
    hide TakeIn; hide ParseList; hide WireObjects; hide Agrees; hide EachFits; hide FitCount; hide Missing;
    var lacking, objects := Lacking(asker, messages, f), Given(w, giver, asker, m);
    GivenObjects(w, giver, asker, f, messages, m);
    ServableIsGenuine(w, View(giver));
    BuiltAreLoaded(w, giver, Asked(w, asker, m), m.asked);
    PreviewIsFirst(w, giver, m);
    ExchangeDelivers(w, giver, asker, m.now, m.asked, m.summary, m.choice, m.origin);
    k := FitCount(objects, |objects|);
    assert |DrainLoop.Ids(objects)| == |objects|;
    TakenCount(w, giver, objects, f);
    assert Take(lacking, MAX_TRANSFER)[..k] == lacking[..k];
    LackingAfter(asker, Met(w, giver, asker, m), messages, f, k) by {
      PreviewInStore(w, giver, m.now, m.summary);
      SortedDistinct(f);
    }
  }

  lemma PreviewIsFirst(w: World, giver: Tables, m: Meeting)
    requires OwnSummary(w, giver, m.now, m.summary)
    ensures m.summary.preview == First(giver, m.now)
  {
    hide View; hide Enumerate; hide WellBuilt; hide Eligible;
  }

  lemma LackingAfter(asker: Peer, after: Peer, messages: set<Str>, f: seq<Str>, k: nat)
    requires Distinct(f) && k <= |Lacking(asker, messages, f)|
    requires View(after.tables).Keys == View(asker.tables).Keys + Elements(Lacking(asker, messages, f)[..k])
    ensures Lacking(after, messages, f) == Lacking(asker, messages, f)[k..]
  {
    hide View; hide Filter;
    var view, view', lacking := View(asker.tables), View(after.tables), Lacking(asker, messages, f);
    var p, q := x => x !in view && x !in messages, x => x !in lacking[..k];
    FilterMember(f, p);
    FilterDistinct(f, p);
    forall x ensures x in view' <==> x in view || x in lacking[..k] {
      assert x in view'.Keys <==> x in view.Keys + Elements(lacking[..k]);
    }
    FilterBoth(f, p, q, x => x !in view' && x !in messages);
    WithoutPrefix(lacking, k, q);
  }

  // ---- many meetings

  ghost function MetAll(w: World, giver: Tables, asker: Peer, ms: seq<Meeting>): Peer
    decreases |ms|
  {
    if ms == [] then asker else MetAll(w, giver, Met(w, giver, asker, ms[0]), ms[1..])
  }

  ghost predicate GoodMeetings(w: World, giver: Tables, asker: Peer, f: seq<Str>, messages: set<Str>, ms: seq<Meeting>)
    decreases |ms|
  {
    ms != [] ==>
      && GoodMeeting(w, giver, asker, f, messages, ms[0])
      && GoodMeetings(w, giver, Met(w, giver, asker, ms[0]), f, messages, ms[1..])
  }

  /** After k meetings over an unchanged giver the asker has gained exactly a beginning of what it
      lacked of the first 64, at least k of them if each fits, all of them after two meetings if
      the envelopes are small, and never anything else: an id of a later rank is out of reach
      while those stay eligible. */
  lemma {:induction false} MeetingsReach(
    w: World, giver: Tables, asker: Peer, f: seq<Str>, messages: set<Str>, ms: seq<Meeting>)
    returns (n: nat)
    requires HoldsServable(w, View(giver)) && Agrees(asker.tables) && GoodMeetings(w, giver, asker, f, messages, ms)
    requires asker.remote.Some? && asker.remote.value.maxWant == MAX_WANT
    ensures var lacking, after := Lacking(asker, messages, f), MetAll(w, giver, asker, ms);
            && n <= |lacking| && n <= MAX_TRANSFER * |ms|
            && View(after.tables).Keys == View(asker.tables).Keys + Elements(lacking[..n])
            && Lacking(after, messages, f) == lacking[n..]
            && (EachFits(giver, f, MAX_TRANSFER_BYTES) ==> n == |lacking| || n >= |ms|)
            && (EachFits(giver, f, SMALL) ==> n == |lacking| || n == MAX_TRANSFER * |ms|)
    decreases |ms|
  {
    hide View; hide HoldsServable; hide Agrees; hide Lacking; hide EachFits; hide GoodMeeting; hide Met;
    var lacking := Lacking(asker, messages, f);
    if ms == [] {
      n := 0;
      assert lacking[..0] == [] && lacking[0..] == lacking;
    } else {
      var k := MeetingBrings(w, giver, asker, f, messages, ms[0]);
      MetKeepsRemote(w, giver, asker, ms[0]);
      var rest := MeetingsReach(w, giver, Met(w, giver, asker, ms[0]), f, messages, ms[1..]);
      n := k + rest;
      assert lacking[k..][..rest] == lacking[k..n] && lacking[k..][rest..] == lacking[n..];
      assert lacking[..n] == lacking[..k] + lacking[k..n];
      JoinedElements(lacking[..k], lacking[k..n]);
    }
  }

  lemma MetKeepsRemote(w: World, giver: Tables, asker: Peer, m: Meeting)
    ensures Met(w, giver, asker, m).remote == asker.remote
  {
  }

  lemma JoinedElements(a: seq<Str>, b: seq<Str>)
    ensures Elements(a + b) == Elements(a) + Elements(b)
  {
  }

  /** A meeting is what the handlers of the two relays do: their exchange of one summary, request,
      transfer and receipt leaves the asker with exactly those tables. */
  lemma MeetingIsHandled(
    w: World, a: Peer, b: Peer, m: Meeting, c1: Choice, c2: Choice, c4: Choice)
    returns (a2: Peer, b2: Peer, sent: seq<Str>)
    requires Faithful(w) && Connected(a) && Connected(b) && a.remote == Some(BuildRelayHello(w, b.relayId))
    requires Agrees(a.tables) && HoldsServable(w, View(b.tables)) && OwnSummary(w, b.tables, m.now, m.summary)
    requires Fits(w, SummaryMsg(m.summary)) && FramesFit(w, View(b.tables), m.summary.preview)
    requires c1.messages == m.choice.messages && c2.now == m.asked && m.origin == a.remote.value.nodeId
    requires forall x | x in m.summary.preview && Load(w, View(b.tables), x).Found? ::
               Welcome(w, Load(w, View(b.tables), x).item, m.choice, m.origin)
    ensures a2.tables == Met(w, b.tables, a, m).tables
    ensures exists a1: Peer :: if Asked(w, a, m) == [] then Sends(w, a, SummaryMsg(m.summary), c1, a1, []) && a2 == a1
              else exists b1: Peer, items: seq<TransferObject> ::
                     && Sends(w, a, SummaryMsg(m.summary), c1, a1, [RequestMsg(Asked(w, a, m))])
                     && Sends(w, b, RequestMsg(Asked(w, a, m)), c2, b1, [TransferMsg(items)])
                     && Sends(w, a1, TransferMsg(items), m.choice, a2, [ReceiptMsg(sent)])
                     && Sends(w, b1, ReceiptMsg(sent), c4, b2, [])
  {
    hide View; hide Agrees; hide HoldsServable; hide Load; hide Welcome; hide BuildRelayHello; hide OwnSummary;
    hide FramesFit; hide Fits;
    hide Sends; hide Connected; hide TakeIn; hide ParseList; hide WireObjects; hide ObjectsFor; hide WantFor;
    hide Unknown; hide FitCount;
    var a1, b1, taken, given, items, ids := ExchangeThroughHandlers(w, a, b, m.summary, m.now, c1, c2, m.choice, c4);
    sent := Enumerate(Elements(ids));
    a2, b2 := taken, given;
    if Asked(w, a, m) == [] {
      NothingAsked(w, a, b, m);
      a2 := a1;
    }
  }

  lemma NothingAsked(w: World, a: Peer, b: Peer, m: Meeting)
    requires Asked(w, a, m) == []
    ensures Met(w, b.tables, a, m).tables == a.tables
  {
    hide View; hide Load; hide WantFor;
    assert Given(w, b.tables, a, m) == [] by { NothingBuilt(w, b.tables, m.asked); }
    NothingParsed(w);
    var none: seq<Indexed> := [];
    assert TakeIn(w, a.tables, none, m.choice, m.origin).0 == a.tables;
  }

  lemma NothingBuilt(w: World, t: Tables, now: Time)
    ensures ObjectsFor(w, t, [], now) == []
  {
    hide View; hide Load;
  }

  lemma NothingParsed(w: World)
    ensures ParseList(w, WireObjects([])).objects == []
  {
  }
}
