/** Byte strings, their lexicographic order, and fixed-width big-endian integers.
    A Go `string` and a Go `[]byte` are both a `Str`: one element per byte. */
module ByteStrings {

  type Byte = b: int | 0 <= b < 256
  type Str = seq<Byte>

  datatype Option<+T> = None | Some(value: T)

  /** Three-way lexicographic comparison, as `bytes.Compare` and Go's `<` on strings. */
  function Compare(a: Str, b: Str): (c: int)
    ensures -1 <= c <= 1
  {
    if a == [] then (if b == [] then 0 else -1)
    else if b == [] then 1
    else if a[0] != b[0] then (if a[0] < b[0] then -1 else 1)
    else Compare(a[1..], b[1..])
  }

  predicate Less(a: Str, b: Str) { Compare(a, b) < 0 }

  predicate HasPrefix(s: Str, p: Str) { p <= s }

  predicate NulFree(s: Str) { forall i | 0 <= i < |s| :: s[i] != 0 }

  lemma {:induction false} CompareZero(a: Str, b: Str)
    ensures Compare(a, b) == 0 <==> a == b
  {
    if a != [] && b != [] && a[0] == b[0] {
      CompareZero(a[1..], b[1..]);
      assert a == [a[0]] + a[1..] && b == [b[0]] + b[1..];
    }
  }

  lemma {:induction false} CompareFlip(a: Str, b: Str)
    ensures Compare(b, a) == -Compare(a, b)
  {
    if a != [] && b != [] && a[0] == b[0] { CompareFlip(a[1..], b[1..]); }
  }

  lemma {:induction false} LessTransitive(a: Str, b: Str, c: Str)
    requires Compare(a, b) <= 0 && Compare(b, c) <= 0
    ensures Compare(a, c) <= 0
    ensures Less(a, b) || Less(b, c) ==> Less(a, c)
  {
    if a != [] && b != [] && c != [] && a[0] == b[0] == c[0] {
      LessTransitive(a[1..], b[1..], c[1..]);
    }
  }

  /** Every two byte strings are ordered exactly one way. */
  lemma Trichotomy(a: Str, b: Str)
    ensures !Less(a, a)
    ensures Less(a, b) ==> a != b && !Less(b, a)
    ensures a != b ==> Less(a, b) || Less(b, a)
  {
    CompareZero(a, a); CompareZero(a, b); CompareFlip(a, b);
  }

  /** A common prefix does not matter. */
  lemma {:induction false} CompareCommonPrefix(p: Str, a: Str, b: Str)
    ensures Compare(p + a, p + b) == Compare(a, b)
  {
    if p == [] {
      assert p + a == a && p + b == b;
    } else {
      assert (p + a)[1..] == p[1..] + a && (p + b)[1..] == p[1..] + b;
      CompareCommonPrefix(p[1..], a, b);
    }
  }

  /** When two strings of one length differ, nothing after them matters. */
  lemma {:induction false} CompareFixedWidth(a: Str, b: Str, x: Str, y: Str)
    requires |a| == |b| && a != b
    ensures Compare(a + x, b + y) == Compare(a, b)
  {
    assert (a + x)[0] == a[0] && (b + y)[0] == b[0];
    if a[0] == b[0] {
      assert a == [a[0]] + a[1..] && b == [b[0]] + b[1..];
      assert (a + x)[1..] == a[1..] + x && (b + y)[1..] == b[1..] + y;
      CompareFixedWidth(a[1..], b[1..], x, y);
    }
  }

  /** Whatever lies between a prefix and an extension of it has that prefix, so the keys
      of one prefix are contiguous in key order. */
  lemma {:induction false} BetweenPrefix(p: Str, k: Str, x: Str)
    requires Compare(p, k) <= 0 && Compare(k, p + x) <= 0
    ensures HasPrefix(k, p)
  {
    if p != [] {
      assert (p + x)[0] == p[0] && (p + x)[1..] == p[1..] + x;
      assert k != [] && k[0] == p[0];
      BetweenPrefix(p[1..], k[1..], x);
      assert k == [k[0]] + k[1..] && p == [p[0]] + p[1..];
    }
  }

  lemma {:induction false} PrefixIsLeast(p: Str, x: Str)
    ensures Compare(p, p + x) <= 0
  {
    if p != [] {
      assert (p + x)[1..] == p[1..] + x;
      PrefixIsLeast(p[1..], x);
    }
  }

  lemma EmptyIsLeast(x: Str)
    ensures Compare([], x) <= 0
  {
  }

  /** Position of the first NUL, or -1 (`bytes.IndexByte(s, 0)`). */
  function IndexNul(s: Str): (i: int)
    ensures -1 <= i < |s|
  {
    if s == [] then -1
    else if s[0] == 0 then 0
    else var i := IndexNul(s[1..]); if i < 0 then -1 else i + 1
  }

  lemma {:induction false} IndexNulOfKey(a: Str, x: Str)
    requires NulFree(a)
    ensures IndexNul(a + [0] + x) == |a|
  {
    if a != [] {
      assert (a + [0] + x)[1..] == a[1..] + [0] + x;
      IndexNulOfKey(a[1..], x);
    }
  }

  /** A NUL-free first part makes the composite key `a || 0 || x` uniquely readable. */
  lemma NulSeparated(a: Str, x: Str, b: Str, y: Str)
    requires NulFree(a) && NulFree(b)
    requires a + [0] + x == b + [0] + y
    ensures a == b && x == y
  {
    IndexNulOfKey(a, x); IndexNulOfKey(b, y);
    var s, t := a + [0] + x, b + [0] + y;
    assert a == s[..|a|] && b == t[..|a|];
    assert x == s[|a| + 1..] && y == t[|a| + 1..];
  }

  // ---- fixed-width unsigned integers, most significant byte first

  function Pow256(w: nat): (p: nat)
    ensures p > 0
  {
    if w == 0 then 1 else 256 * Pow256(w - 1)
  }

  function BigEndian(n: nat, w: nat): (s: Str)
    ensures |s| == w
    decreases w, n
  {
    if w == 0 then [] else BigEndian(n / 256, w - 1) + [n % 256]
  }

  function FromBigEndian(s: Str): nat
  {
    if s == [] then 0 else 256 * FromBigEndian(s[..|s| - 1]) + s[|s| - 1]
  }

  lemma FromBigEndianAppend(s: Str, b: Byte)
    ensures FromBigEndian(s + [b]) == 256 * FromBigEndian(s) + b
  {
    assert (s + [b])[..|s|] == s;
  }

  lemma {:induction false} BigEndianRoundTrip(n: nat, w: nat)
    requires n < Pow256(w)
    ensures FromBigEndian(BigEndian(n, w)) == n
  {
    if w > 0 {
      FromBigEndianAppend(BigEndian(n / 256, w - 1), n % 256);
      BigEndianRoundTrip(n / 256, w - 1);
    }
  }

  lemma WidthValues()
    ensures Pow256(2) == 65536 && Pow256(4) == 0x1_0000_0000 && Pow256(8) == 0x1_0000_0000_0000_0000
  {
    assert Pow256(1) == 256;
    assert Pow256(2) == 65536;
    assert Pow256(3) == 0x100_0000;
    assert Pow256(4) == 0x1_0000_0000;
    assert Pow256(5) == 0x100_0000_0000;
    assert Pow256(6) == 0x1_0000_0000_0000;
    assert Pow256(7) == 0x100_0000_0000_0000;
  }

  const INT64_MIN: int := -0x8000_0000_0000_0000
  const INT64_MAX: int := 0x7fff_ffff_ffff_ffff

  /** A signed 64-bit integer in two's complement. */
  function PutInt64(i: int): (s: Str)
    ensures |s| == 8
  {
    BigEndian(i % 0x1_0000_0000_0000_0000, 8)
  }

  function GetInt64(s: Str): int
  {
    var u := FromBigEndian(s);
    if u > INT64_MAX then u - 0x1_0000_0000_0000_0000 else u
  }

  lemma Int64RoundTrip(i: int)
    requires INT64_MIN <= i <= INT64_MAX
    ensures GetInt64(PutInt64(i)) == i
  {
    WidthValues();
    BigEndianRoundTrip(i % 0x1_0000_0000_0000_0000, 8);
  }

  /** Two's complement, big-endian: -1 and 258. */
  lemma Int64Examples()
    ensures PutInt64(-1) == [255, 255, 255, 255, 255, 255, 255, 255]
    ensures PutInt64(258) == [0, 0, 0, 0, 0, 0, 1, 2]
  {
    Ones(8);
    WidthValues();
    Zeros(6);
    assert BigEndian(1, 7) == BigEndian(0, 6) + [1];
    assert BigEndian(258, 8) == BigEndian(1, 7) + [2];
  }

  lemma {:induction false} Ones(w: nat)
    ensures BigEndian(Pow256(w) - 1, w) == seq(w, _ => 255)
  {
    if w > 0 {
      Ones(w - 1);
      assert (Pow256(w) - 1) / 256 == Pow256(w - 1) - 1 && (Pow256(w) - 1) % 256 == 255;
      assert seq(w, _ => 255) == seq(w - 1, _ => 255) + [255];
    }
  }

  lemma {:induction false} Zeros(w: nat)
    ensures BigEndian(0, w) == seq(w, _ => 0)
  {
    if w > 0 {
      Zeros(w - 1);
      assert seq(w, _ => 0) == seq(w - 1, _ => 0) + [0];
    }
  }
}
