/** The summary's Bloom filter: 2048 bytes, four SHA-256 based bits per item
    (internal/gossipv1/protocol.go). SHA-256 is a parameter. */
module Bloom {
  import opened ByteStrings
  import opened Ordered
  import opened Digest

  type Digest32 = s: Str | |s| == 32 witness seq(32, _ => 0)
  type Hash = Str -> Digest32

  const FILTER_BYTES: nat := 2048
  const FILTER_BITS: nat := 16384
  const HASHES: nat := 4

  // ---- bits of a byte

  predicate TestBit(b: nat, o: nat) { if o == 0 then b % 2 == 1 else TestBit(b / 2, o - 1) }

  /** `b | 1 << o`. */
  function WithBit(b: nat, o: nat): nat
  {
    if o == 0 then b / 2 * 2 + 1 else 2 * WithBit(b / 2, o - 1) + b % 2
  }

  function Pow2(w: nat): nat { if w == 0 then 1 else 2 * Pow2(w - 1) }

  lemma {:induction false} WithBitFits(b: nat, o: nat, w: nat)
    requires b < Pow2(w) && o < w
    ensures WithBit(b, o) < Pow2(w)
  {
    if o > 0 { WithBitFits(b / 2, o - 1, w - 1); }
  }

  function SetBit(b: Byte, o: nat): (r: Byte)
    requires o < 8
    ensures r == WithBit(b, o)
  {
    assert Pow2(8) == 256;
    WithBitFits(b, o, 8);
    WithBit(b, o)
  }

  lemma {:induction false} WithBitEffect(b: nat, o: nat, p: nat)
    ensures TestBit(WithBit(b, o), p) <==> p == o || TestBit(b, p)
  {
    if o > 0 && p > 0 {
      WithBitEffect(b / 2, o - 1, p - 1);
      assert WithBit(b, o) / 2 == WithBit(b / 2, o - 1);
    } else if o == 0 && p > 0 {
      assert WithBit(b, o) / 2 == b / 2;
    }
  }

  // ---- the filter

  predicate IsSet(f: Str, k: nat)
    requires |f| == FILTER_BYTES && k < FILTER_BITS
  {
    TestBit(f[k / 8], k % 8)
  }

  function BitOf(sha: Hash, item: Str, h: nat): (k: nat)
    requires h < HASHES
    ensures k < FILTER_BITS
  {
    FromBigEndian(sha(item + [h])[..8]) % FILTER_BITS
  }

  /** The filter has 2^14 bits, so of the first eight bytes of the hash of an item and a number, read
      big-endian, only the last two choose the bit. */
  lemma BitIsFromLastBytes(sha: Hash, item: Str, h: nat)
    requires h < HASHES
    ensures var high: int, low: int := sha(item + [h])[6], sha(item + [h])[7];
            BitOf(sha, item, h) == high % 64 * 256 + low
  {
    var d := sha(item + [h]);
    var s := d[..6];
    assert d[..8] == s + [d[6]] + [d[7]] && d[..7] == s + [d[6]];
    FromBigEndianAppend(s + [d[6]], d[7]);
    FromBigEndianAppend(s, d[6]);
    LowBits(FromBigEndian(s), d[6], d[7]);
  }

  lemma LowBits(n: nat, x: nat, y: nat)
    requires x < 256 && y < 256
    ensures (256 * (256 * n + x) + y) % 16384 == x % 64 * 256 + y
  {
    var q, r := x / 64, x % 64;
    assert x == 64 * q + r && 256 * (256 * n + x) + y == 16384 * (4 * n + q) + (r * 256 + y);
    RemainderOf(4 * n + q, r * 256 + y);
  }

  lemma RemainderOf(q: nat, r: nat)
    requires r < 16384
    ensures (16384 * q + r) % 16384 == r
  {
  }

  /** The bits an item sets. */
  ghost predicate Hits(sha: Hash, id: Str, k: nat)
  {
    IsDigest(id) && exists h: nat | h < HASHES :: BitOf(sha, DigestBytes(id).value, h) == k
  }

  /** Building: the bits set are exactly those of the items. */
  method Build(sha: Hash, ids: seq<Str>) returns (f: Str)
    requires AllDigests(ids)
    ensures |f| == FILTER_BYTES
    ensures forall k: nat | k < FILTER_BITS :: IsSet(f, k) <==> exists id | id in ids :: Hits(sha, id, k)
  {
    hide DigestBytes; hide BitOf; hide SetBit; hide TestBit;
    var filter := new Byte[FILTER_BYTES](_ => 0);
    ZeroFilter();
    assert forall k: nat | k < FILTER_BITS :: !IsSet(filter[..], k);
    for i := 0 to |ids|
      invariant forall k: nat | k < FILTER_BITS ::
                  IsSet(filter[..], k) <==> exists j | 0 <= j < i :: Hits(sha, ids[j], k)
    {
      ghost var before := filter[..];
      var item := DigestBytes(ids[i]).value;
      var h := 0;
      while h < HASHES
        invariant h <= HASHES
        invariant forall k: nat | k < FILTER_BITS ::
          IsSet(filter[..], k) <==> IsSet(before, k) || exists g: nat | g < h :: BitOf(sha, item, g) == k
      {
        var bit := BitOf(sha, item, h);
        ghost var mid := filter[..];
        filter[bit / 8] := SetBit(filter[bit / 8], bit % 8);
        OneBit(mid, bit, filter[..]);
        h := h + 1;
      }
    }
    f := filter[..];
    forall k: nat | k < FILTER_BITS ensures IsSet(f, k) <==> exists id | id in ids :: Hits(sha, id, k) {
      if id :| id in ids && Hits(sha, id, k) { var j :| 0 <= j < |ids| && ids[j] == id; }
    }
  }

  lemma ZeroFilter()
    ensures forall o: nat :: !TestBit(0, o)
  {
    forall o: nat ensures !TestBit(0, o) { ZeroBit(o); }
  }

  lemma {:induction false} ZeroBit(o: nat)
    ensures !TestBit(0, o)
  {
    if o > 0 { ZeroBit(o - 1); }
  }

  lemma OneBit(f: Str, bit: nat, g: Str)
    requires |f| == FILTER_BYTES && bit < FILTER_BITS
    requires g == f[bit / 8 := SetBit(f[bit / 8], bit % 8)]
    ensures forall k: nat | k < FILTER_BITS :: IsSet(g, k) <==> k == bit || IsSet(f, k)
  {
    hide SetBit; hide TestBit; hide WithBit;
    forall k: nat | k < FILTER_BITS ensures IsSet(g, k) <==> k == bit || IsSet(f, k) {
      WithBitEffect(f[bit / 8], bit % 8, k % 8);
      if k / 8 == bit / 8 && k % 8 == bit % 8 { assert k == 8 * (k / 8) + k % 8 && bit == 8 * (bit / 8) + bit % 8; }
    }
  }

  /** Testing: a filter of the right size, a digest id, and all four bits set. */
  method MightContain(sha: Hash, f: Str, id: Str) returns (r: bool)
    ensures r <==> MayHold(sha, f, id)
  {
    hide DigestBytes; hide BitOf; hide TestBit;
    if |f| != FILTER_BYTES { return false; }
    var item := DigestBytes(id);
    if item.None? { return false; }
    for h := 0 to HASHES
      invariant forall g: nat | g < h :: IsSet(f, BitOf(sha, item.value, g))
    {
      if !IsSet(f, BitOf(sha, item.value, h)) { return false; }
    }
    return true;
  }

  predicate MayHold(sha: Hash, f: Str, id: Str)
  {
    && |f| == FILTER_BYTES && IsDigest(id)
    && forall h: nat | h < HASHES :: IsSet(f, BitOf(sha, DigestBytes(id).value, h))
  }

  ghost predicate FilterOf(sha: Hash, f: Str, ids: seq<Str>)
  {
    && |f| == FILTER_BYTES
    && forall k: nat | k < FILTER_BITS :: IsSet(f, k) <==> exists id | id in ids :: Hits(sha, id, k)
  }

  /** No false negatives: a filter built over a list answers yes for everything in it. */
  lemma NoFalseNegatives(sha: Hash, f: Str, ids: seq<Str>, id: Str)
    requires AllDigests(ids) && FilterOf(sha, f, ids) && id in ids
    ensures MayHold(sha, f, id)
  {
    hide BitOf; hide IsSet;
    var i :| 0 <= i < |ids| && ids[i] == id;
    forall h: nat | h < HASHES ensures IsSet(f, BitOf(sha, DigestBytes(id).value, h)) {
      assert Hits(sha, id, BitOf(sha, DigestBytes(id).value, h));
    }
  }

  /** A yes for an id outside the list comes only from other items covering all its bits. */
  lemma FalsePositiveIsCovered(sha: Hash, f: Str, ids: seq<Str>, id: Str, h: nat)
    requires FilterOf(sha, f, ids) && MayHold(sha, f, id) && h < HASHES
    ensures exists x | x in ids :: Hits(sha, x, BitOf(sha, DigestBytes(id).value, h))
  {
    hide BitOf; hide IsSet;
    assert IsSet(f, BitOf(sha, DigestBytes(id).value, h));
  }

  /** The filter is determined by its bits. */
  lemma FilterUnique(sha: Hash, f: Str, g: Str, ids: seq<Str>)
    requires FilterOf(sha, f, ids) && FilterOf(sha, g, ids)
    ensures f == g
  {
    hide TestBit;
    forall i | 0 <= i < FILTER_BYTES ensures f[i] == g[i] {
      forall o: nat | o < 8 ensures TestBit(f[i], o) <==> TestBit(g[i], o) {
        assert (8 * i + o) / 8 == i && (8 * i + o) % 8 == o;
        assert IsSet(f, 8 * i + o) <==> IsSet(g, 8 * i + o);
      }
      assert Pow2(8) == 256;
      SameBits(f[i], g[i], 8);
    }
  }

  lemma {:induction false} SameBits(b: nat, c: nat, w: nat)
    requires b < Pow2(w) && c < Pow2(w)
    requires forall o: nat | o < w :: TestBit(b, o) <==> TestBit(c, o)
    ensures b == c
  {
    if w > 0 {
      assert TestBit(b, 0) <==> TestBit(c, 0);
      forall o: nat | o < w - 1 ensures TestBit(b / 2, o) <==> TestBit(c / 2, o) {
        assert TestBit(b, o + 1) <==> TestBit(c, o + 1);
      }
      SameBits(b / 2, c / 2, w - 1);
    }
  }
}
