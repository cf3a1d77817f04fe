/** Following page cursors over a sorted id list, and the recipient preview that wraps around
    it (`GetEnvelopeIDsByDestinationPage`, `buildRecipientSummary`). */
module Paging {
  import opened ByteStrings
  import opened GossipLimits
  import opened Ordered

  /** A sorted list of non-empty ids: what one destination's eligible ids are. */
  ghost predicate IdList(all: seq<Str>) { Sorted(all) && [] !in all }

  function PageAfter(all: seq<Str>, limit: nat, cursor: Str): seq<Str> { Take(After(all, cursor), limit) }

  function Last(s: seq<Str>): Str
    requires s != []
  {
    s[|s| - 1]
  }

  /** A page is the next stretch of the list, and its last id is the position reached. */
  lemma PageIsStretch(all: seq<Str>, limit: nat, cursor: Str)
    requires IdList(all) && limit > 0
    ensures var p, page := Position(all, cursor), PageAfter(all, limit, cursor);
            && p + |page| <= |all| && page == all[p..p + |page|]
            && (page == [] <==> p == |all|)
            && |page| <= limit && (|page| == limit || p + |page| == |all|)
            && (page != [] ==> Position(all, Last(page)) == p + |page|)
  {
    var p, page := Position(all, cursor), PageAfter(all, limit, cursor);
    AfterIsSuffix(all, cursor);
    if page != [] {
      var i := p + |page| - 1;
      assert Last(page) == all[i] && all[i] in all;
      PositionOfElement(all, i);
    }
  }

  /** The pages fetched by always passing the last id received. */
  ghost function Pages(all: seq<Str>, limit: nat, cursor: Str): seq<seq<Str>>
    requires IdList(all) && limit > 0
    decreases |all| - Position(all, cursor)
  {
    PageIsStretch(all, limit, cursor);
    var page := PageAfter(all, limit, cursor);
    if page == [] then [[]] else [page] + Pages(all, limit, Last(page))
  }

  function Concat(pages: seq<seq<Str>>): seq<Str>
  {
    if pages == [] then [] else pages[0] + Concat(pages[1..])
  }

  /** Following cursors from the start visits every id exactly once, in order, and ends with the
      only empty page; every page but the last two is full. */
  lemma {:induction false} PagingRefinesList(all: seq<Str>, limit: nat, cursor: Str)
    requires IdList(all) && limit > 0
    ensures var pages := Pages(all, limit, cursor);
            && Concat(pages) == all[Position(all, cursor)..]
            && pages != [] && pages[|pages| - 1] == []
            && (forall i | 0 <= i < |pages| - 1 :: pages[i] != [])
            && (forall i | 0 <= i < |pages| - 2 :: |pages[i]| == limit)
    ensures cursor == [] ==> Concat(Pages(all, limit, cursor)) == all
    decreases |all| - Position(all, cursor)
  {
    hide Position; hide PageAfter; hide Sorted;
    PositionStart(all);
    PageIsStretch(all, limit, cursor);
    var p, page := Position(all, cursor), PageAfter(all, limit, cursor);
    if page != [] {
      PageIsStretch(all, limit, Last(page));
      PagingRefinesList(all, limit, Last(page));
      ConcatStep(page, Pages(all, limit, Last(page)));
      assert all[p..p + |page|] + all[p + |page|..] == all[p..];
    } else {
      assert Pages(all, limit, cursor)[1..] == [];
    }
  }

  lemma ConcatStep(page: seq<Str>, rest: seq<seq<Str>>)
    ensures Concat([page] + rest) == page + Concat(rest)
  {
    assert ([page] + rest)[1..] == rest;
  }

  // ---- the recipient preview

  /** The next stretch after the cursor, or, when nothing is left there, the first one. */
  function Preview(ids: seq<Str>, cursor: Str): seq<Str>
  {
    var page := PageAfter(ids, MAX_PREVIEW, cursor);
    if page == [] && cursor != [] then Take(ids, MAX_PREVIEW) else page
  }

  function NextCursor(ids: seq<Str>, cursor: Str): Str
  {
    var page := Preview(ids, cursor);
    if page == [] then [] else Last(page)
  }

  /** Where the preview starts. */
  function Start(ids: seq<Str>, cursor: Str): nat
  {
    var p := Position(ids, cursor);
    if p == |ids| then 0 else p
  }

  lemma PreviewIsStretch(ids: seq<Str>, cursor: Str)
    requires IdList(ids)
    ensures var s, page := Start(ids, cursor), Preview(ids, cursor);
            && s + |page| <= |ids| && page == ids[s..s + |page|]
            && |page| == (if |ids| - s < MAX_PREVIEW then |ids| - s else MAX_PREVIEW)
            && Position(ids, NextCursor(ids, cursor)) == s + |page|
            && (page == [] <==> ids == [])
  {
    hide Position; hide PageAfter; hide IdList; hide Take;
    PageIsStretch(ids, MAX_PREVIEW, cursor);
    PageIsStretch(ids, MAX_PREVIEW, []);
    PositionStart(ids);
    FirstPage(ids);
  }

  lemma FirstPage(ids: seq<Str>)
    ensures PageAfter(ids, MAX_PREVIEW, []) == Take(ids, MAX_PREVIEW)
  {
  }

  lemma PositionStart(ids: seq<Str>)
    ensures Position(ids, []) == 0
  {
  }

  /** The cursor after `k` previews. */
  function CursorAfter(ids: seq<Str>, cursor: Str, k: nat): Str
  {
    if k == 0 then cursor else NextCursor(ids, CursorAfter(ids, cursor, k - 1))
  }

  function CallsFor(n: nat): nat { (n + MAX_PREVIEW - 1) / MAX_PREVIEW }

  /** Before the wrap the previews advance 64 at a time from the cursor's position. */
  lemma {:induction false} PositionBeforeWrap(ids: seq<Str>, cursor: Str, k: nat)
    requires IdList(ids) && Position(ids, cursor) + MAX_PREVIEW * k < |ids| + MAX_PREVIEW
    ensures var p := Position(ids, cursor) + MAX_PREVIEW * k;
            Position(ids, CursorAfter(ids, cursor, k)) == if p < |ids| then p else |ids|
  {
    hide Position; hide NextCursor;
    if k > 0 {
      PositionBeforeWrap(ids, cursor, k - 1);
      PreviewIsStretch(ids, CursorAfter(ids, cursor, k - 1));
    } else {
      PositionBound(ids, cursor);
    }
  }

  lemma PositionBound(ids: seq<Str>, cursor: Str)
    ensures Position(ids, cursor) <= |ids|
  {
  }

  lemma CursorStep(ids: seq<Str>, cursor: Str, k: nat)
    requires k > 0
    ensures CursorAfter(ids, cursor, k) == NextCursor(ids, CursorAfter(ids, cursor, k - 1))
  {
  }

  /** From the end of the list the previews restart at the beginning. */
  lemma {:induction false} PositionAfterWrap(ids: seq<Str>, cursor: Str, k: nat, m: nat)
    requires IdList(ids) && Position(ids, CursorAfter(ids, cursor, k)) == |ids|
    requires MAX_PREVIEW * m < |ids|
    ensures Start(ids, CursorAfter(ids, cursor, k + m)) == MAX_PREVIEW * m
  {
    hide Position; hide NextCursor; hide Preview; hide IdList; hide CursorAfter;
    if m > 0 {
      CursorStep(ids, cursor, k + m);
      PositionAfterWrap(ids, cursor, k, m - 1);
      PreviewIsStretch(ids, CursorAfter(ids, cursor, k + m - 1));
    }
  }

  /** Which call previews the i-th id, from a cursor at position p of n. */
  function CallFor(n: nat, p: nat, i: nat): nat
    requires p <= n && i < n
  {
    if p <= i then (i - p) / MAX_PREVIEW else CallsFor(n - p) + i / MAX_PREVIEW
  }

  lemma CallForBound(n: nat, p: nat, i: nat)
    requires p <= n && i < n
    ensures CallFor(n, p, i) < CallsFor(n) + 1
  {
  }

  /** No starvation: over a fixed list of n ids, from any cursor, each id is in one of the next
      ceil(n/64) + 1 previews. */
  lemma EveryIdIsPreviewed(ids: seq<Str>, cursor: Str, i: nat)
    requires IdList(ids) && i < |ids|
    ensures var k := CallFor(|ids|, Position(ids, cursor), i);
            k < CallsFor(|ids|) + 1 && ids[i] in Preview(ids, CursorAfter(ids, cursor, k))
  {
    hide Position; hide NextCursor; hide Preview; hide CursorAfter;
    PositionBound(ids, cursor);
    var n, p := |ids|, Position(ids, cursor);
    var k := CallFor(n, p, i);
    CallForBound(n, p, i);
    var s := if p <= i then p + MAX_PREVIEW * k else MAX_PREVIEW * (i / MAX_PREVIEW);
    if p <= i {
      PositionBeforeWrap(ids, cursor, k);
    } else {
      PositionBeforeWrap(ids, cursor, CallsFor(n - p));
      PositionAfterWrap(ids, cursor, CallsFor(n - p), i / MAX_PREVIEW);
    }
    var c := CursorAfter(ids, cursor, k);
    assert Start(ids, c) == s && s <= i < s + MAX_PREVIEW;
    PreviewIsStretch(ids, c);
    assert Preview(ids, c)[i - s] == ids[i];
  }
}
