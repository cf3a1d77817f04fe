/** Digest ids: 64 lowercase hexadecimal characters (section 8 of RFC 4648), their order,
    and the id-list normalisation and validation of internal/gossipv1/protocol.go. */
module Digest {
  import opened ByteStrings
  import opened Ordered

  const DIGEST_BYTES := 32
  const DIGEST_HEX_LEN := 64

  /** Value of one hexadecimal character; the decoder takes both letter cases. */
  function HexValue(c: Byte): (v: Option<nat>)
    ensures v.Some? ==> v.value < 16
  {
    if 48 <= c <= 57 then Some(c - 48)
    else if 97 <= c <= 102 then Some(c - 87)
    else if 65 <= c <= 70 then Some(c - 55)
    else None
  }

  function HexChar(v: nat): Byte
    requires v < 16
  {
    if v < 10 then 48 + v else 87 + v
  }

  function HexEncode(b: Str): (s: Str)
    ensures |s| == 2 * |b|
  {
    if b == [] then [] else [HexChar(b[0] / 16), HexChar(b[0] % 16)] + HexEncode(b[1..])
  }

  function HexDecode(s: Str): (r: Option<Str>)
    ensures r.Some? ==> 2 * |r.value| == |s|
  {
    if s == [] then Some([])
    else if |s| == 1 then None
    else
      var hi, lo, rest := HexValue(s[0]), HexValue(s[1]), HexDecode(s[2..]);
      if hi.None? || lo.None? || rest.None? then None
      else Some([16 * hi.value + lo.value] + rest.value)
  }

  /** `strings.ToLower` on the ASCII letters; other bytes never reach a decoded digest. */
  function ToLower(s: Str): (r: Str)
    ensures |r| == |s|
  {
    if s == [] then [] else [if 65 <= s[0] <= 90 then s[0] + 32 else s[0]] + ToLower(s[1..])
  }

  function DigestBytes(s: Str): (r: Option<Str>)
    ensures r.Some? ==> |s| == DIGEST_HEX_LEN && |r.value| == DIGEST_BYTES
  {
    if |s| != DIGEST_HEX_LEN then None
    else if s != ToLower(s) then None
    else HexDecode(s)
  }

  predicate IsDigest(s: Str) { DigestBytes(s).Some? }

  function CompareDigestHex(l: Str, r: Str): int
  {
    var lb, rb := DigestBytes(l), DigestBytes(r);
    if lb.None? || rb.None? then
      if Less(l, r) then -1 else if Less(r, l) then 1 else 0
    else Compare(lb.value, rb.value)
  }

  // ---- hexadecimal is a faithful, order-preserving text

  lemma {:induction false} LowerTail(s: Str)
    requires |s| >= 2 && s == ToLower(s)
    ensures s[2..] == ToLower(s[2..])
    ensures !(65 <= s[0] <= 90) && !(65 <= s[1] <= 90)
  {
    assert ToLower(s)[1..] == ToLower(s[1..]);
    assert ToLower(s[1..])[1..] == ToLower(s[1..][1..]);
    assert s[1..][1..] == s[2..];
    assert s[1] == s[1..][0];
  }

  lemma {:induction false} HexOrder(l: Str, r: Str)
    requires HexDecode(l).Some? && HexDecode(r).Some? && |l| == |r|
    requires l == ToLower(l) && r == ToLower(r)
    ensures Compare(HexDecode(l).value, HexDecode(r).value) == Compare(l, r)
  {
    if l != [] {
      hide ToLower;
      LowerTail(l); LowerTail(r);
      HexOrder(l[2..], r[2..]);
      assert l[1..][1..] == l[2..] && r[1..][1..] == r[2..];
      assert HexDecode(l).value[1..] == HexDecode(l[2..]).value;
      assert HexDecode(r).value[1..] == HexDecode(r[2..]).value;
      assert Compare(l[1..], r[1..]) ==
             if l[1] != r[1] then (if l[1] < r[1] then -1 else 1) else Compare(l[2..], r[2..]);
    }
  }

  /** Digest order is plain text order, on every pair of strings. */
  lemma DigestOrderIsTextOrder(l: Str, r: Str)
    ensures CompareDigestHex(l, r) == Compare(l, r)
  {
    if IsDigest(l) && IsDigest(r) { HexOrder(l, r); }
    CompareFlip(l, r);
  }

  lemma ToLowerPair(x: Byte, y: Byte, s: Str)
    requires !(65 <= x <= 90) && !(65 <= y <= 90)
    ensures ToLower([x, y] + s) == [x, y] + ToLower(s)
  {
    var t := [x, y] + s;
    assert t[1..] == [y] + s && ([y] + s)[1..] == s;
  }

  lemma HexDecodePair(x: Byte, y: Byte, s: Str)
    requires HexValue(x).Some? && HexValue(y).Some? && HexDecode(s).Some?
    ensures HexDecode([x, y] + s) == Some([16 * HexValue(x).value + HexValue(y).value] + HexDecode(s).value)
  {
    assert ([x, y] + s)[2..] == s;
  }

  lemma HexCharValue(v: nat)
    requires v < 16
    ensures HexValue(HexChar(v)) == Some(v) && !(65 <= HexChar(v) <= 90)
  {
  }

  lemma {:induction false} HexEncodeLower(b: Str)
    ensures ToLower(HexEncode(b)) == HexEncode(b)
  {
    if b != [] {
      HexEncodeLower(b[1..]);
      HexCharValue(b[0] / 16); HexCharValue(b[0] % 16);
      ToLowerPair(HexChar(b[0] / 16), HexChar(b[0] % 16), HexEncode(b[1..]));
    }
  }

  lemma {:induction false} HexRoundTrip(b: Str)
    ensures HexDecode(HexEncode(b)) == Some(b)
  {
    if b != [] {
      HexRoundTrip(b[1..]);
      HexCharValue(b[0] / 16); HexCharValue(b[0] % 16);
      HexDecodePair(HexChar(b[0] / 16), HexChar(b[0] % 16), HexEncode(b[1..]));
      assert b == [b[0]] + b[1..];
    }
  }

  lemma {:induction false} HexDecodeInjective(s: Str)
    requires HexDecode(s).Some? && s == ToLower(s)
    ensures HexEncode(HexDecode(s).value) == s
  {
    if s != [] {
      LowerTail(s);
      hide ToLower;
      HexDecodeInjective(s[2..]);
      assert HexDecode(s).value[1..] == HexDecode(s[2..]).value;
      assert s == [s[0], s[1]] + s[2..];
    }
  }

  /** Ids and 32-byte digests are in bijection. */
  lemma DigestBijection(d: Str, s: Str)
    ensures |d| == DIGEST_BYTES ==> DigestBytes(HexEncode(d)) == Some(d)
    ensures IsDigest(s) ==> HexEncode(DigestBytes(s).value) == s
  {
    HexRoundTrip(d); HexEncodeLower(d);
    if IsDigest(s) { HexDecodeInjective(s); }
  }

  predicate LowerHex(c: Byte) { 48 <= c <= 57 || 97 <= c <= 102 }

  lemma {:induction false} LowerHexDecodes(s: Str)
    ensures HexDecode(s).Some? && s == ToLower(s) <==> |s| % 2 == 0 && forall i | 0 <= i < |s| :: LowerHex(s[i])
  {
    if |s| >= 2 {
      LowerHexDecodes(s[2..]);
      assert s[1..][1..] == s[2..] && s[1..][0] == s[1];
      assert s == [s[0], s[1]] + s[2..];
      assert ToLower(s) == [ToLower(s)[0], ToLower(s)[1]] + ToLower(s[2..]);
      assert forall i | 2 <= i < |s| :: s[i] == s[2..][i - 2];
    }
  }

  /** A digest id is 64 lower-case hexadecimal digits. */
  lemma DigestMeans(s: Str)
    ensures IsDigest(s) <==> |s| == DIGEST_HEX_LEN && forall i | 0 <= i < |s| :: LowerHex(s[i])
  {
    hide HexDecode; hide ToLower;
    LowerHexDecodes(s);
  }

  /** A digest written out: `0fa0`. */
  lemma HexExample()
    ensures HexEncode([15, 160]) == [48, 102, 97, 48]
  {
    assert [15, 160][1..] == [160];
  }

  /** No digest id holds a NUL, so it can stand in a NUL-separated key. */
  lemma {:induction false} HexNulFree(s: Str)
    requires HexDecode(s).Some?
    ensures NulFree(s)
  {
    if s != [] {
      HexNulFree(s[2..]);
      assert s == [s[0], s[1]] + s[2..];
    }
  }

  // ---- sorting

  function Insert(x: Str, s: seq<Str>): seq<Str>
  {
    if s == [] || CompareDigestHex(x, s[0]) < 0 then [x] + s else [s[0]] + Insert(x, s[1..])
  }

  /** Ordering by digest; any correct sort gives the same list for distinct ids. */
  function SortIds(s: seq<Str>): seq<Str>
  {
    if s == [] then [] else Insert(s[0], SortIds(s[1..]))
  }

  lemma {:induction false} InsertSorted(x: Str, s: seq<Str>)
    requires Sorted(s) && x !in s
    ensures Sorted(Insert(x, s))
    ensures Elements(Insert(x, s)) == {x} + Elements(s)
  {
    if s == [] {
    } else {
      DigestOrderIsTextOrder(x, s[0]); Trichotomy(x, s[0]);
      assert s == [s[0]] + s[1..];
      if CompareDigestHex(x, s[0]) < 0 {
        forall i | 0 < i < |s| ensures Less(x, s[i]) { LessTransitive(x, s[0], s[i]); }
      } else {
        var r := Insert(x, s[1..]);
        InsertSorted(x, s[1..]);
        forall i | 0 <= i < |r| ensures Less(s[0], r[i]) {
          assert r[i] in Elements(r);
          assert r[i] != x ==> r[i] in Elements(s[1..]);
        }
      }
    }
  }

  lemma {:induction false} SortIdsCorrect(s: seq<Str>)
    requires Distinct(s)
    ensures Sorted(SortIds(s)) && Elements(SortIds(s)) == Elements(s)
    ensures SortIds(s) == Enumerate(Elements(s))
    ensures |SortIds(s)| == |s|
  {
    if s != [] {
      SortIdsCorrect(s[1..]);
      assert s == [s[0]] + s[1..];
      assert s[0] !in Elements(SortIds(s[1..]));
      InsertSorted(s[0], SortIds(s[1..]));
      assert Elements(s) == {s[0]} + Elements(s[1..]);
    }
    SortedUnique(SortIds(s), Enumerate(Elements(s)));
    DistinctCount(s);
    SortedDistinct(SortIds(s));
    DistinctCount(SortIds(s));
  }

  // ---- normalisation and validation

  predicate AllDigests(ids: seq<Str>) { forall i | 0 <= i < |ids| :: IsDigest(ids[i]) }

  /** Validate, drop repeats, sort: succeeds exactly when every id is a digest, and then
      gives the sorted enumeration of the ids. */
  method NormalizeIds(input: seq<Str>) returns (r: Option<seq<Str>>)
    ensures r.Some? <==> AllDigests(input)
    ensures r.Some? ==> r.value == Enumerate(Elements(input))
  {
    var seen: set<Str> := {};
    var ids: seq<Str> := [];
    for i := 0 to |input|
      invariant seen == Elements(ids) == Elements(input[..i])
      invariant Distinct(ids)
      invariant AllDigests(input[..i])
    {
      if !IsDigest(input[i]) { return None; }
      assert input[..i + 1] == input[..i] + [input[i]];
      if input[i] !in seen {
        seen := seen + {input[i]};
        ids := ids + [input[i]];
      }
    }
    assert input[..|input|] == input;
    SortIdsCorrect(ids);
    return Some(SortIds(ids));
  }

  /** Like NormalizeIds, but malformed ids are dropped instead of refused. */
  method NormalizeIdsDropInvalid(input: seq<Str>) returns (r: seq<Str>)
    ensures r == Enumerate(set x | x in input && IsDigest(x))
  {
    var seen: set<Str> := {};
    var ids: seq<Str> := [];
    for i := 0 to |input|
      invariant seen == Elements(ids) == set x | x in input[..i] && IsDigest(x)
      invariant Distinct(ids)
    {
      assert input[..i + 1] == input[..i] + [input[i]];
      if IsDigest(input[i]) && input[i] !in seen {
        seen := seen + {input[i]};
        ids := ids + [input[i]];
      }
    }
    assert input[..|input|] == input;
    SortIdsCorrect(ids);
    return SortIds(ids);
  }

  /** Accepts exactly the strictly digest-sorted lists of digests. */
  method ValidateSortedUnique(input: seq<Str>) returns (ok: bool)
    ensures ok <==> AllDigests(input) && Sorted(input)
  {
    var seen: set<Str> := {};
    var previous: Str := [];
    for i := 0 to |input|
      invariant seen == Elements(input[..i])
      invariant AllDigests(input[..i]) && Sorted(input[..i])
      invariant i > 0 ==> previous == input[i - 1]
    {
      assert input[i] in input;
      if !IsDigest(input[i]) { return false; }
      if input[i] in seen {
        var j :| 0 <= j < i && input[j] == input[i];
        Trichotomy(input[j], input[i]);
        return false;
      }
      assert input[..i + 1] == input[..i] + [input[i]];
      seen := seen + {input[i]};
      if i > 0 {
        DigestOrderIsTextOrder(previous, input[i]);
        if CompareDigestHex(previous, input[i]) >= 0 { return false; }
        ExtendSorted(input[..i], input[i]);
      }
      previous := input[i];
    }
    assert input[..|input|] == input;
    return true;
  }

  lemma ExtendSorted(s: seq<Str>, x: Str)
    requires Sorted(s) && s != [] && Less(s[|s| - 1], x)
    ensures Sorted(s + [x])
  {
    forall i | 0 <= i < |s| ensures Less(s[i], x) {
      if i < |s| - 1 { LessTransitive(s[i], s[|s| - 1], x); }
    }
  }
}
