/** What to request after a peer's SUMMARY (`computeMissingWant` in internal/api/ws.go and
    internal/federation/peering.go). */
module Want {
  import opened ByteStrings
  import opened GossipLimits
  import opened Ordered
  import opened Digest
  import opened Bloom

  /** Looking an id up in the stores can find it, not find it, or fail. */
  datatype Lookup = Known | Unknown | Failed

  function Limit(peerMaxWant: nat): (n: nat)
    ensures 0 < n <= MAX_WANT && (peerMaxWant > 0 ==> n <= peerMaxWant)
    ensures n == MAX_WANT || n == peerMaxWant
  {
    if 0 < peerMaxWant < MAX_WANT then peerMaxWant else MAX_WANT
  }

  /** An id worth requesting: the peer may hold it and this node does not. */
  predicate Wanted(sha: Hash, bloom: Str, known: Str -> Lookup, id: Str)
  {
    MayHold(sha, bloom, id) && known(id) == Unknown
  }

  /** Preview ids come first, then candidates not already chosen, up to the limit. */
  ghost function Chosen(preview: seq<Str>, candidates: seq<Str>, wanted: Str -> bool, limit: nat): seq<Str>
  {
    var p := Filter(preview, wanted);
    Take(p + Filter(candidates, x => wanted(x) && x !in p), limit)
  }

  /** One pass over a sorted id list, appending wanted ids until the limit. */
  method Collect(sha: Hash, bloom: Str, known: Str -> Lookup, ids: seq<Str>, limit: nat, want: seq<Str>)
    returns (r: seq<Str>, ok: bool)
    requires Distinct(ids) && |want| < limit
    ensures ok ==> r == want + Take(Filter(ids, x => Wanted(sha, bloom, known, x) && x !in want), limit - |want|)
    ensures !ok ==> exists x | x in ids :: MayHold(sha, bloom, x) && known(x) == Failed
  {
    hide MayHold;
    r, ok := want, true;
    var seen := Elements(want);
    ghost var p := x => Wanted(sha, bloom, known, x) && x !in want;
    var i := 0;
    while i < |ids| && |r| < limit
      invariant 0 <= i <= |ids| && |r| <= limit
      invariant seen == Elements(r)
      invariant r == want + Filter(ids[..i], p)
    {
      var id := ids[i];
      assert ids[..i + 1] == ids[..i] + [id];
      FilterAppend(ids[..i], [id], p);
      FilterMember(ids[..i], p);
      assert id in r <==> id in want;
      if id !in seen {
        var hit := MightContain(sha, bloom, id);
        if hit {
          match known(id)
          case Failed => return r, false;
          case Known =>
          case Unknown =>
            seen := seen + {id};
            r := r + [id];
        }
      }
      i := i + 1;
    }
    assert ids == ids[..i] + ids[i..];
    FilterAppend(ids[..i], ids[i..], p);
    if i == |ids| { assert ids[..i] == ids; }
  }

  /** The request for a summary: `None` when an id is malformed or a lookup fails. */
  method ComputeMissingWant(
    sha: Hash, bloom: Str, preview: seq<Str>, candidates: seq<Str>, peerMaxWant: nat, known: Str -> Lookup)
    returns (r: Option<seq<Str>>)
    ensures r.Some? ==>
              var wanted := x => Wanted(sha, bloom, known, x);
              r.value == Enumerate(Elements(Chosen(
                Enumerate(Elements(preview)), Enumerate(Elements(candidates)), wanted, Limit(peerMaxWant))))
    ensures r.None? ==>
              || !AllDigests(preview) || !AllDigests(candidates)
              || exists x | x in preview || x in candidates :: known(x) == Failed
  {
    hide MayHold; hide Enumerate; hide SortIds; hide Wanted; hide Filter; hide Compare; hide IsDigest; hide Sorted;
    ghost var wanted := x => Wanted(sha, bloom, known, x);
    var p := NormalizeIds(preview);
    if p.None? { return None; }
    SortedDistinct(p.value);
    SameElements(preview, p.value);
    var limit := Limit(peerMaxWant);
    var want, ok := Collect(sha, bloom, known, p.value, limit, []);
    if !ok { return None; }
    FilterAgree(p.value, x => Wanted(sha, bloom, known, x) && x !in [], wanted);
    ghost var fromPreview := Filter(p.value, wanted);
    ghost var fromBoth := fromPreview + Filter(Enumerate(Elements(candidates)), x => wanted(x) && x !in fromPreview);
    FilterDistinct(p.value, wanted);
    if |want| >= limit {
      assert want == Take(fromBoth, limit);
      SortIdsCorrect(want);
      return Some(SortIds(want));
    }
    assert want == fromPreview;
    var c := NormalizeIds(candidates);
    if c.None? { return None; }
    SortedDistinct(c.value);
    SameElements(candidates, c.value);
    ghost var more := x => Wanted(sha, bloom, known, x) && x !in fromPreview;
    want, ok := Collect(sha, bloom, known, c.value, limit, want);
    if !ok { return None; }
    FilterAgree(c.value, more, x => wanted(x) && x !in fromPreview);
    assert want == Take(fromBoth, limit);
    ChosenDistinct(p.value, c.value, wanted, limit);
    SortIdsCorrect(want);
    return Some(SortIds(want));
  }

  lemma SameElements(ids: seq<Str>, sorted: seq<Str>)
    requires sorted == Enumerate(Elements(ids))
    ensures forall x :: x in ids <==> x in sorted
  {
    hide Enumerate;
    forall x ensures x in ids <==> x in sorted { assert x in ids <==> x in Elements(sorted); }
  }

  lemma ChosenDistinct(preview: seq<Str>, candidates: seq<Str>, wanted: Str -> bool, limit: nat)
    requires Distinct(preview) && Distinct(candidates)
    ensures Distinct(Chosen(preview, candidates, wanted, limit))
  {
    var p := Filter(preview, wanted);
    var c := Filter(candidates, x => wanted(x) && x !in p);
    FilterDistinct(preview, wanted);
    FilterDistinct(candidates, x => wanted(x) && x !in p);
    FilterMember(candidates, x => wanted(x) && x !in p);
    assert Distinct(p + c) by {
      forall i, j | 0 <= i < j < |p + c| ensures (p + c)[i] != (p + c)[j] {
        if i < |p| <= j { assert (p + c)[i] in p && (p + c)[j] in c; }
      }
    }
  }

  /** The request is sorted and bounded, holds only wanted ids, reaches for a candidate only
      after every wanted preview id, and misses nothing when below the limit. */
  lemma WantMeetsSpec(preview: seq<Str>, candidates: seq<Str>, wanted: Str -> bool, limit: nat)
    requires Distinct(preview) && Distinct(candidates)
    ensures var want := Enumerate(Elements(Chosen(preview, candidates, wanted, limit)));
            && Sorted(want) && |want| <= limit
            && (forall x | x in want :: wanted(x) && (x in preview || x in candidates))
            && (forall x, y | x in want && x !in preview && y in preview && wanted(y) :: y in want)
            && (|want| < limit ==> forall y | (y in preview || y in candidates) && wanted(y) :: y in want)
  {
    hide Enumerate;
    var p := Filter(preview, wanted);
    var c := Filter(candidates, x => wanted(x) && x !in p);
    var chosen := Chosen(preview, candidates, wanted, limit);
    var want := Enumerate(Elements(chosen));
    ChosenDistinct(preview, candidates, wanted, limit);
    DistinctCount(chosen);
    SortedDistinct(want);
    DistinctCount(want);
    FilterMember(preview, wanted);
    FilterMember(candidates, x => wanted(x) && x !in p);
    forall x ensures x in want <==> x in chosen { assert x in Elements(want) <==> x in Elements(chosen); }
    forall x | x in chosen ensures x in p || x in c { assert x in p + c; }
    if x :| x in chosen && x !in preview {
      CandidatesAfterPreview(p, c, limit, x);
    }
  }

  lemma CandidatesAfterPreview(p: seq<Str>, c: seq<Str>, limit: nat, x: Str)
    requires x in Take(p + c, limit) && x !in p
    ensures p <= Take(p + c, limit)
  {
    var t := Take(p + c, limit);
    var i :| 0 <= i < |t| && t[i] == x;
    assert t[i] == (p + c)[i];
    assert i >= |p|;
  }

  /** For a summary built over a superset of its preview the filter drops nothing: below the
      limit the request is exactly the unknown preview ids. */
  lemma HonestPreviewIsRequested(
    sha: Hash, bloom: Str, items: seq<Str>, preview: seq<Str>, peerMaxWant: nat, known: Str -> Lookup)
    requires AllDigests(items) && FilterOf(sha, bloom, items)
    requires Sorted(preview) && (forall x | x in preview :: x in items) && |preview| <= Limit(peerMaxWant)
    ensures var wanted := x => Wanted(sha, bloom, known, x);
            Enumerate(Elements(Chosen(preview, [], wanted, Limit(peerMaxWant))))
            == Filter(preview, x => known(x) == Unknown)
  {
    hide MayHold; hide FilterOf; hide Enumerate; hide IsDigest;
    var wanted, unknown := x => Wanted(sha, bloom, known, x), x => known(x) == Unknown;
    forall x | x in preview ensures wanted(x) == unknown(x) { NoFalseNegatives(sha, bloom, items, x); }
    FilterAgree(preview, wanted, unknown);
    var p := Filter(preview, wanted);
    FilterMember(preview, wanted);
    FilterSorted(preview, unknown);
    assert Filter([], (x: Str) => wanted(x) && x !in p) == [];
    assert p + [] == p;
    SortedUnique(Enumerate(Elements(p)), p);
  }
}
