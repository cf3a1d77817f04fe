/** What holds over whole streams and whole runs of a session. */
module SessionRuns {
  import opened ByteStrings
  import opened Ordered
  import opened Protocol
  import opened Transfer
  import opened Sessions

  // ---- chunking

  lemma NextFrameAppend(a: Str, b: Str)
    ensures NextFrame(a).BadLength? ==> NextFrame(a + b) == NextFrame(a)
    ensures NextFrame(a).Cut? ==> NextFrame(a + b) == Cut(NextFrame(a).frame, NextFrame(a).rest + b)
  {
    if |a| >= 4 {
      assert (a + b)[..4] == a[..4];
      var n := FromBigEndian(a[..4]);
      if |a| >= 4 + n {
        assert (a + b)[4..4 + n] == a[4..4 + n];
        assert (a + b)[4 + n..] == a[4 + n..] + b;
      }
    }
  }

  /** Draining more bytes is draining the first ones, then, unless that ended the session, the
      remainder with the rest appended. */
  lemma {:induction false} DrainAppend(w: World, s: State, b: Str)
    requires !s.terminated
    ensures var (s1, e1) := Drain(w, s);
            Drain(w, s.(buffer := s.buffer + b)) ==
            if s1.terminated then (s1.(buffer := s1.buffer + b), e1)
            else var (s2, e2) := Drain(w, s1.(buffer := s1.buffer + b)); (s2, e1 + e2)
    decreases |s.buffer|
  {
    hide NextFrame; hide HandleFrame;
    NextFrameAppend(s.buffer, b);
    var c := NextFrame(s.buffer);
    if c.Incomplete? {
      var (s2, e2) := Drain(w, s.(buffer := s.buffer + b));
      assert [] + e2 == e2;
    } else if c.Cut? {
      var s0 := s.(buffer := c.rest);
      var (s1, e) := HandleFrame(w, s0, c.frame);
      HandleKeepsBuffer(w, s0, c.frame);
      HandleIgnoresBuffer(w, s0, c.frame, c.rest + b);
      assert s.(buffer := s.buffer + b).(buffer := c.rest + b) == s0.(buffer := c.rest + b);
      if !s1.terminated {
        DrainAppend(w, s1, b);
        var (s2, es) := Drain(w, s1);
        if !s2.terminated {
          var (s3, more) := Drain(w, s2.(buffer := s2.buffer + b));
          assert [e] + (es + more) == [e] + es + more;
        }
      }
    }
  }

  lemma {:induction false} DrainSettles(w: World, s: State)
    requires !s.terminated
    ensures var s1 := Drain(w, s).0; s1.terminated || NextFrame(s1.buffer).Incomplete?
    decreases |s.buffer|
  {
    hide NextFrame; hide HandleFrame;
    var c := NextFrame(s.buffer);
    if c.Cut? {
      var (s1, e) := HandleFrame(w, s.(buffer := c.rest), c.frame);
      HandleKeepsBuffer(w, s.(buffer := c.rest), c.frame);
      if !s1.terminated { DrainSettles(w, s1); }
    }
  }

  /** Between pushes no complete frame waits in the buffer. */
  ghost predicate Settled(s: State) { s.terminated || NextFrame(s.buffer).Incomplete? }

  function PushAll(w: World, s: State, chunks: seq<Str>): (State, seq<Event>)
    decreases |chunks|
  {
    if chunks == [] then (s, [])
    else
      var (s1, e1) := Push(w, s, chunks[0]);
      var (s2, e2) := PushAll(w, s1, chunks[1..]);
      (s2, e1 + e2)
  }

  function Join(chunks: seq<Str>): Str { if chunks == [] then [] else chunks[0] + Join(chunks[1..]) }

  /** Everything but the unread bytes of a session that is over. */
  function Observed(s: State): State { if s.terminated then s.(buffer := []) else s }

  lemma PushTwice(w: World, s: State, a: Str, b: Str)
    requires Settled(s)
    ensures var (s1, e1) := Push(w, s, a);
            var (s2, e2) := Push(w, s1, b);
            var (t, e) := Push(w, s, a + b);
            e == e1 + e2 && Observed(t) == Observed(s2) && Settled(s1)
  {
    hide NextFrame; hide Drain;
    assert a == [] ==> a + b == b;
    assert b == [] ==> a + b == a;
    if !s.terminated && a != [] {
      var s0 := s.(buffer := s.buffer + a);
      DrainSettles(w, s0);
      DrainAppend(w, s0, b);
      assert s0.buffer + b == s.buffer + (a + b);
      assert s.(buffer := s.buffer + (a + b)) == s0.(buffer := s0.buffer + b);
      var (s1, e1) := Drain(w, s0);
      if !s1.terminated && b == [] {
        assert s1.(buffer := s1.buffer + b) == s1;
        SettledDrain(w, s1);
        assert e1 + [] == e1;
      }
      if s1.terminated { assert e1 + [] == e1; }
    } else {
      var e2 := Push(w, s, b).1;
      assert [] + e2 == e2;
      if s.terminated || b == [] { assert e2 == []; }
    }
  }

  lemma SettledDrain(w: World, s: State)
    requires !s.terminated && NextFrame(s.buffer).Incomplete?
    ensures Drain(w, s) == (s, [])
  {
  }

  lemma SettledPush(w: World, s: State, chunk: Str)
    requires Settled(s)
    ensures Settled(Push(w, s, chunk).0)
  {
    hide NextFrame; hide Drain;
    if !s.terminated && chunk != [] { DrainSettles(w, s.(buffer := s.buffer + chunk)); }
  }

  /** Cutting a byte stream into chunks is unobservable: same events, same end. */
  lemma {:induction false} ChunkingIsUnobservable(w: World, s: State, chunks: seq<Str>)
    requires Settled(s)
    ensures PushAll(w, s, chunks).1 == Push(w, s, Join(chunks)).1
    ensures Observed(PushAll(w, s, chunks).0) == Observed(Push(w, s, Join(chunks)).0)
    decreases |chunks|
  {
    hide NextFrame; hide Drain; hide Push; hide Settled;
    if chunks == [] {
      PushNothing(w, s);
    } else {
      var (s1, e1) := Push(w, s, chunks[0]);
      SettledPush(w, s, chunks[0]);
      ChunkingIsUnobservable(w, s1, chunks[1..]);
      PushTwice(w, s, chunks[0], Join(chunks[1..]));
    }
  }

  lemma PushNothing(w: World, s: State)
    ensures Push(w, s, []) == (s, [])
  {
  }

  // ---- frames come back

  function CutAll(buffer: Str): seq<Str>
    decreases |buffer|
  {
    match NextFrame(buffer)
    case Cut(frame, rest) => [frame] + CutAll(rest)
    case _ => []
  }

  ghost predicate Sendable(frames: seq<Str>) { forall i | 0 <= i < |frames| :: Prefixed(frames[i]).Some? }

  function Stream(frames: seq<Str>): Str
    requires forall i | 0 <= i < |frames| :: Prefixed(frames[i]).Some?
  {
    if frames == [] then [] else Prefixed(frames[0]).value + Stream(frames[1..])
  }

  lemma PrefixedCuts(frame: Str, rest: Str)
    requires Prefixed(frame).Some?
    ensures NextFrame(Prefixed(frame).value + rest) == Cut(frame, rest)
  {
    hide FromBigEndian; hide BigEndian;
    WidthValues();
    BigEndianRoundTrip(|frame|, 4);
    var s := Prefixed(frame).value + rest;
    assert s[..4] == BigEndian(|frame|, 4);
    assert s[4..4 + |frame|] == frame && s[4 + |frame|..] == rest;
  }

  /** Any concatenation of length-prefixed frames is cut back into exactly those frames. */
  lemma {:induction false} StreamCutsBack(frames: seq<Str>)
    requires Sendable(frames)
    ensures CutAll(Stream(frames)) == frames
  {
    hide NextFrame; hide Prefixed;
    if frames == [] {
      NothingToCut();
    } else {
      PrefixedCuts(frames[0], Stream(frames[1..]));
      StreamCutsBack(frames[1..]);
      assert frames == [frames[0]] + frames[1..];
    }
  }

  lemma NothingToCut()
    ensures CutAll([]) == []
  {
  }

  // ---- the receipt automaton

  /** The order list and its index are inverse, without repeats or empty ids, and empty unless a
      receipt is awaited. */
  ghost predicate ReceiptInv(s: State)
  {
    && Distinct(s.order) && [] !in s.order
    && s.index.Keys == Elements(s.order)
    && (forall i | 0 <= i < |s.order| :: s.index[s.order[i]] == i)
    && (!s.awaiting ==> s.order == [])
  }

  lemma {:induction false} ExpectedOrderIsSet(ids: seq<Str>)
    ensures Distinct(ExpectedOrder(ids)) && [] !in ExpectedOrder(ids)
    ensures Elements(ExpectedOrder(ids)) == Elements(ids) - {[]}
  {
    if ids != [] {
      var rest, id := ids[..|ids| - 1], ids[|ids| - 1];
      ExpectedOrderIsSet(rest);
      assert ids == rest + [id];
      assert Elements(ids) == Elements(rest) + {id};
      var before := ExpectedOrder(rest);
      assert id in before <==> id in Elements(before);
      assert Elements(before + [id]) == Elements(before) + {id};
    }
  }

  /** Distinct non-empty ids are expected in the order they are given. */
  lemma {:induction false} ExpectedInOrder(ids: seq<Str>)
    requires Distinct(ids) && [] !in ids
    ensures ExpectedOrder(ids) == ids
  {
    if ids != [] {
      var rest := ids[..|ids| - 1];
      assert ids == rest + [ids[|ids| - 1]];
      ExpectedInOrder(rest);
    }
  }

  lemma {:induction false} IndexInvertsOrder(order: seq<Str>)
    requires Distinct(order)
    ensures IndexOf(order).Keys == Elements(order)
    ensures forall i | 0 <= i < |order| :: IndexOf(order)[order[i]] == i
  {
    if order != [] {
      var rest, id := order[..|order| - 1], order[|order| - 1];
      IndexInvertsOrder(rest);
      assert order == rest + [id];
      assert Elements(order) == Elements(rest) + {id};
    }
  }

  lemma SetExpectedKeepsInv(s: State, ids: seq<Str>)
    ensures ReceiptInv(SetExpected(s, ids))
  {
    ExpectedOrderIsSet(ids);
    IndexInvertsOrder(ExpectedOrder(ids));
  }

  lemma {:induction false} NoAckFault(index: map<Str, nat>, accepted: seq<Str>, i: nat)
    requires i <= |accepted| && Distinct(accepted[..i]) && (forall x | x in accepted[..i] :: x in index)
    ensures AckFault(index, accepted, i).None? <==> Distinct(accepted) && forall x | x in accepted :: x in index
    decreases |accepted| - i
  {
    if i == |accepted| {
      assert accepted[..i] == accepted;
    } else if accepted[i] in index && accepted[i] !in accepted[..i] {
      assert accepted[..i + 1] == accepted[..i] + [accepted[i]];
      NoAckFault(index, accepted, i + 1);
    }
  }

  /** A receipt passes exactly when one is awaited and it acknowledges, without repeats, ids of
      the pending transfer. */
  lemma ReceiptCheckExact(s: State, accepted: seq<Str>)
    requires ReceiptInv(s)
    ensures ReceiptFault(s, accepted).None? <==>
              s.awaiting && Distinct(accepted) && forall x | x in accepted :: x in s.order
  {
    NoAckFault(s.index, accepted, 0);
    forall x ensures x in s.order <==> x in s.index { assert x in s.index.Keys <==> x in Elements(s.order); }
    if s.order == [] && accepted != [] { assert accepted[0] in accepted; }
  }

  ghost predicate Justified(e: Event, order: seq<Str>)
  {
    e.ReceiptReceived? ==> e.expected == order && Distinct(e.accepted) && forall x | x in e.accepted :: x in order
  }

  /** Only a receipt that passes touches the receipt state. */
  lemma PayloadShape(w: World, s: State, name: string, p: Payload)
    ensures var (s1, e) := HandlePayload(w, s, name, p);
            || (ParseReceipt(p).Some? && (s1, e) == HandleReceipt(s, name, ParseReceipt(p).value))
            || (!e.ReceiptReceived? && s1.awaiting == s.awaiting && s1.order == s.order && s1.index == s.index)
  {
    hide KindNamed; hide ParseHello; hide Content; hide ParseReceipt; hide ParseRelayIngest; hide HandleReceipt;
  }

  lemma FrameAndReceipts(w: World, s: State, frame: Str)
    requires ReceiptInv(s)
    ensures var (s1, e) := HandleFrame(w, s, frame);
            && ReceiptInv(s1) && Justified(e, s.order)
            && (e.ReceiptReceived? ==> s.awaiting && !s1.awaiting)
            && (!e.ReceiptReceived? ==> s1.awaiting == s.awaiting && s1.order == s.order)
  {
    hide HandlePayload; hide ParseReceipt; hide ReceiptFault;
    var f := w.unmarshal(frame);
    if f.Some? {
      var s0 := s.(lastKind := f.value.kind);
      PayloadShape(w, s0, f.value.kind, f.value.payload);
      var ids := ParseReceipt(f.value.payload);
      if ids.Some? { ReceiptCheckExact(s0, ids.value); }
    }
  }

  function Receipts(events: seq<Event>): nat
  {
    if events == [] then 0 else (if events[0].ReceiptReceived? then 1 else 0) + Receipts(events[1..])
  }

  lemma ReceiptsStep(e: Event, es: seq<Event>)
    ensures Receipts([e] + es) == (if e.ReceiptReceived? then 1 else 0) + Receipts(es)
  {
    assert ([e] + es)[1..] == es;
  }

  lemma {:induction false} ReceiptsAppend(a: seq<Event>, b: seq<Event>)
    ensures Receipts(a + b) == Receipts(a) + Receipts(b)
  {
    if a == [] { assert a + b == b; }
    else {
      assert (a + b)[1..] == a[1..] + b;
      ReceiptsAppend(a[1..], b);
    }
  }

  ghost predicate FatalOnlyLast(events: seq<Event>)
  {
    forall i | 0 <= i < |events| - 1 :: !events[i].Fatal?
  }

  /** One push settles at most the one pending transfer, and says so truthfully. */
  lemma {:induction false} DrainReceipts(w: World, s: State)
    requires ReceiptInv(s) && !s.terminated
    ensures var (s1, es) := Drain(w, s);
            && ReceiptInv(s1)
            && Receipts(es) + (if s1.awaiting then 1 else 0) == (if s.awaiting then 1 else 0)
            && (forall i | 0 <= i < |es| :: Justified(es[i], s.order))
            && (s1.awaiting ==> s1.order == s.order)
            && FatalOnlyLast(es) && (s1.terminated <==> es != [] && es[|es| - 1].Fatal?)
    decreases |s.buffer|
  {
    hide NextFrame; hide HandleFrame; hide ReceiptInv;
    ReceiptInvIgnores(s);
    var c := NextFrame(s.buffer);
    if c.BadLength? {
      ReceiptsStep(Fatal("", c.cause), []);
    } else if c.Cut? {
      var s0 := s.(buffer := c.rest);
      var (s1, e) := HandleFrame(w, s0, c.frame);
      HandleKeepsBuffer(w, s0, c.frame);
      FrameAndReceipts(w, s0, c.frame);
      if s1.terminated {
        ReceiptsStep(e, []);
        assert [e] + [] == [e];
      } else {
        var (s2, es) := Drain(w, s1);
        DrainReceipts(w, s1);
        ReceiptsStep(e, es);
        if !s1.awaiting { NoReceipts(es); }
      }
    }
  }

  lemma ReceiptInvIgnores(s: State)
    ensures forall b: Str {:trigger s.(buffer := b)} :: ReceiptInv(s.(buffer := b)) == ReceiptInv(s)
    ensures ReceiptInv(s.(terminated := true)) == ReceiptInv(s)
  {
  }

  lemma {:induction false} NoReceipts(es: seq<Event>)
    ensures Receipts(es) == 0 <==> forall i | 0 <= i < |es| :: !es[i].ReceiptReceived?
  {
    if es != [] {
      NoReceipts(es[1..]);
      assert forall i | 0 < i < |es| :: es[i] == es[1..][i - 1];
    }
  }

  // ---- runs of pushes and expectations

  datatype Op = Expect(ids: seq<Str>) | PushChunk(chunk: Str)

  /** An event and the latest expectation set before it. */
  datatype Tagged = Tagged(event: Event, latest: seq<Str>)

  function Tag(events: seq<Event>, latest: seq<Str>): seq<Tagged>
  {
    seq(|events|, i requires 0 <= i < |events| => Tagged(events[i], latest))
  }

  function Step(w: World, s: State, op: Op): (State, seq<Event>)
  {
    match op
    case Expect(ids) => (SetExpected(s, ids), [])
    case PushChunk(chunk) => Push(w, s, chunk)
  }

  function Run(w: World, s: State, latest: seq<Str>, ops: seq<Op>): (State, seq<Tagged>)
    decreases |ops|
  {
    if ops == [] then (s, [])
    else
      var (s1, es) := Step(w, s, ops[0]);
      var now := if ops[0].Expect? then ops[0].ids else latest;
      var (s2, rest) := Run(w, s1, now, ops[1..]);
      (s2, Tag(es, latest) + rest)
  }

  function Expectations(ops: seq<Op>): nat
  {
    if ops == [] then 0 else (if ops[0].Expect? then 1 else 0) + Expectations(ops[1..])
  }

  function TaggedReceipts(ts: seq<Tagged>): nat
  {
    if ts == [] then 0 else (if ts[0].event.ReceiptReceived? then 1 else 0) + TaggedReceipts(ts[1..])
  }

  lemma {:induction false} TagCounts(events: seq<Event>, latest: seq<Str>)
    ensures TaggedReceipts(Tag(events, latest)) == Receipts(events)
  {
    if events != [] {
      TagCounts(events[1..], latest);
      assert Tag(events, latest)[1..] == Tag(events[1..], latest);
    }
  }

  lemma {:induction false} TaggedAppend(a: seq<Tagged>, b: seq<Tagged>)
    ensures TaggedReceipts(a + b) == TaggedReceipts(a) + TaggedReceipts(b)
  {
    if a == [] { assert a + b == b; }
    else {
      assert (a + b)[1..] == a[1..] + b;
      TaggedAppend(a[1..], b);
    }
  }

  ghost predicate Truthful(t: Tagged) { Justified(t.event, ExpectedOrder(t.latest)) }

  lemma {:induction false} SilentAfterEnd(w: World, s: State, latest: seq<Str>, ops: seq<Op>)
    requires s.terminated
    ensures Run(w, s, latest, ops).1 == [] && Run(w, s, latest, ops).0.terminated
    decreases |ops|
  {
    if ops != [] {
      SilentAfterEnd(w, Step(w, s, ops[0]).0, if ops[0].Expect? then ops[0].ids else latest, ops[1..]);
    }
  }

  lemma StepAndReceipts(w: World, s: State, latest: seq<Str>, op: Op)
    requires ReceiptInv(s) && (s.awaiting ==> s.order == ExpectedOrder(latest))
    ensures var (s1, es) := Step(w, s, op);
            var now := if op.Expect? then op.ids else latest;
            && ReceiptInv(s1) && (s1.awaiting ==> s1.order == ExpectedOrder(now))
            && Receipts(es) + (if s1.awaiting then 1 else 0) <= (if s.awaiting || op.Expect? then 1 else 0)
            && (forall i | 0 <= i < |es| :: Justified(es[i], ExpectedOrder(latest)))
            && FatalOnlyLast(es) && (es != [] && es[|es| - 1].Fatal? ==> s1.terminated)
  {
    hide Drain; hide ReceiptInv; hide ExpectedOrder; hide IndexOf;
    match op {
      case Expect(ids) => SetExpectedKeepsInv(s, ids);
      case PushChunk(chunk) =>
        if !s.terminated && chunk != [] {
          ReceiptInvIgnores(s);
          var s0 := s.(buffer := s.buffer + chunk);
          DrainReceipts(w, s0);
          var es := Drain(w, s0).1;
          NoReceipts(es);
          forall i | 0 <= i < |es| ensures Justified(es[i], ExpectedOrder(latest)) {
            assert Justified(es[i], s0.order);
          }
        }
    }
  }

  /** Over every run: the invariant is kept, every receipt event acknowledges a duplicate-free
      part of the latest expectation, there are no more receipt events than expectations, and a
      fatal event is the last event ever. */
  lemma {:induction false} ReceiptAutomaton(w: World, s: State, latest: seq<Str>, ops: seq<Op>)
    requires ReceiptInv(s) && (s.awaiting ==> s.order == ExpectedOrder(latest))
    ensures var (s1, ts) := Run(w, s, latest, ops);
            && ReceiptInv(s1)
            && (forall i | 0 <= i < |ts| :: Truthful(ts[i]))
            && TaggedReceipts(ts) <= Expectations(ops) + (if s.awaiting then 1 else 0)
            && (forall i | 0 <= i < |ts| - 1 :: !ts[i].event.Fatal?)
    decreases |ops|
  {
    hide Step; hide ReceiptInv; hide ExpectedOrder; hide Justified;
    if ops != [] {
      var (s1, es) := Step(w, s, ops[0]);
      var now := if ops[0].Expect? then ops[0].ids else latest;
      StepAndReceipts(w, s, latest, ops[0]);
      ReceiptAutomaton(w, s1, now, ops[1..]);
      var rest := Run(w, s1, now, ops[1..]).1;
      TagCounts(es, latest);
      TaggedAppend(Tag(es, latest), rest);
      if s1.terminated { SilentAfterEnd(w, s1, now, ops[1..]); }
      JoinedTags(es, latest, rest);
    }
  }

  lemma JoinedTags(es: seq<Event>, latest: seq<Str>, rest: seq<Tagged>)
    requires forall i | 0 <= i < |es| :: Justified(es[i], ExpectedOrder(latest))
    requires forall i | 0 <= i < |rest| :: Truthful(rest[i])
    requires FatalOnlyLast(es) && (forall i | 0 <= i < |rest| - 1 :: !rest[i].event.Fatal?)
    requires es != [] && es[|es| - 1].Fatal? ==> rest == []
    ensures var ts := Tag(es, latest) + rest;
            && (forall i | 0 <= i < |ts| :: Truthful(ts[i]))
            && (forall i | 0 <= i < |ts| - 1 :: !ts[i].event.Fatal?)
  {
    hide Justified; hide ExpectedOrder;
  }
}
