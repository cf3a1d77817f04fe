/** Strictly increasing sequences of byte strings: what a bbolt cursor walks, and what
    digest-sorted id lists are. */
module Ordered {
  import opened ByteStrings

  predicate Sorted(s: seq<Str>)
  {
    forall i, j | 0 <= i < j < |s| :: Less(s[i], s[j])
  }

  function Elements<T>(s: seq<T>): set<T> { set x | x in s }

  predicate Distinct<T(==)>(s: seq<T>) { forall i, j | 0 <= i < j < |s| :: s[i] != s[j] }

  lemma SortedDistinct(s: seq<Str>)
    requires Sorted(s)
    ensures Distinct(s)
  {
    forall i, j | 0 <= i < j < |s| ensures s[i] != s[j] { Trichotomy(s[i], s[j]); }
  }

  /** In a strictly sorted sequence positions and values are ordered alike. */
  lemma SortedIndex(s: seq<Str>, i: nat, j: nat)
    requires Sorted(s) && i < |s| && j < |s|
    ensures Less(s[i], s[j]) <==> i < j
    ensures s[i] == s[j] <==> i == j
  {
    Trichotomy(s[i], s[j]);
    if j < i { Trichotomy(s[j], s[i]); }
  }

  // ---- the sorted enumeration of a finite key set

  predicate IsLeast(k: Str, keys: set<Str>)
  {
    k in keys && forall x | x in keys :: Compare(k, x) <= 0
  }

  lemma {:induction false} LeastExists(keys: set<Str>)
    requires keys != {}
    ensures exists k | k in keys :: IsLeast(k, keys)
    decreases |keys|
  {
    var k :| k in keys;
    var rest := keys - {k};
    if rest == {} {
      CompareZero(k, k);
      assert keys == {k};
      assert IsLeast(k, keys);
    } else {
      LeastExists(rest);
      var m :| m in rest && IsLeast(m, rest);
      CompareFlip(k, m); CompareZero(k, k);
      if Compare(k, m) <= 0 {
        forall x | x in keys ensures Compare(k, x) <= 0 {
          if x != k { LessTransitive(k, m, x); }
        }
        assert IsLeast(k, keys);
      } else {
        assert IsLeast(m, keys);
      }
    }
  }

  lemma LeastUnique(keys: set<Str>)
    ensures forall a, b | IsLeast(a, keys) && IsLeast(b, keys) :: a == b
  {
    forall a, b | IsLeast(a, keys) && IsLeast(b, keys) ensures a == b {
      CompareFlip(a, b); CompareZero(a, b);
    }
  }

  function Least(keys: set<Str>): (k: Str)
    requires keys != {}
    ensures IsLeast(k, keys)
  {
    LeastExists(keys);
    LeastUnique(keys);
    var k :| k in keys && IsLeast(k, keys);
    k
  }

  /** The keys of a bucket in cursor order. */
  function Enumerate(keys: set<Str>): (s: seq<Str>)
    ensures Sorted(s)
    ensures Elements(s) == keys
    decreases |keys|
  {
    if keys == {} then []
    else
      var k := Least(keys);
      var rest := Enumerate(keys - {k});
      LeastFirst(keys, k, rest);
      [k] + rest
  }

  lemma LeastFirst(keys: set<Str>, k: Str, rest: seq<Str>)
    requires IsLeast(k, keys) && Sorted(rest) && Elements(rest) == keys - {k}
    ensures Sorted([k] + rest) && Elements([k] + rest) == keys
  {
    forall i | 0 <= i < |rest| ensures Less(k, rest[i]) {
      assert rest[i] in Elements(rest);
      CompareZero(k, rest[i]);
    }
    forall x ensures x in Elements([k] + rest) <==> x in keys {
      assert x in Elements(rest) <==> x in rest;
    }
  }

  /** A strictly sorted sequence is determined by its elements. */
  lemma {:induction false} SortedUnique(s: seq<Str>, t: seq<Str>)
    requires Sorted(s) && Sorted(t) && Elements(s) == Elements(t)
    ensures s == t
  {
    assert s != [] ==> s[0] in Elements(s);
    assert t != [] ==> t[0] in Elements(t);
    if s != [] {
      var i :| 0 <= i < |t| && t[i] == s[0];
      var j :| 0 <= j < |s| && s[j] == t[0];
      if i > 0 && j > 0 { Trichotomy(s[0], t[0]); }
      assert s[0] == t[0];
      SortedDistinct(s); SortedDistinct(t);
      assert s == [s[0]] + s[1..] && t == [t[0]] + t[1..];
      assert Elements(s[1..]) == Elements(s) - {s[0]};
      assert Elements(t[1..]) == Elements(t) - {t[0]};
      SortedUnique(s[1..], t[1..]);
    }
  }

  // ---- sublists

  function Filter<T>(s: seq<T>, p: T -> bool): seq<T>
  {
    if s == [] then [] else if p(s[0]) then [s[0]] + Filter(s[1..], p) else Filter(s[1..], p)
  }

  function Take<T>(s: seq<T>, n: nat): (t: seq<T>)
    ensures t <= s && |t| <= n
    ensures |t| == n || t == s
  {
    if |s| <= n then s else s[..n]
  }

  lemma {:induction false} FilterMember<T(!new)>(s: seq<T>, p: T -> bool)
    ensures forall x :: x in Filter(s, p) <==> x in s && p(x)
    ensures |Filter(s, p)| <= |s|
  {
    if s != [] {
      FilterMember(s[1..], p);
      assert s == [s[0]] + s[1..];
    }
  }

  lemma {:induction false} FilterAppend<T>(s: seq<T>, t: seq<T>, p: T -> bool)
    ensures Filter(s + t, p) == Filter(s, p) + Filter(t, p)
  {
    if s == [] {
      assert s + t == t;
    } else {
      FilterAppend(s[1..], t, p);
      FilterHead(s, t, p);
      hide Filter;
      if p(s[0]) { Associate([s[0]], Filter(s[1..], p), Filter(t, p)); }
    }
  }

  lemma FilterHead<T>(s: seq<T>, t: seq<T>, p: T -> bool)
    requires s != []
    ensures Filter(s, p) == if p(s[0]) then [s[0]] + Filter(s[1..], p) else Filter(s[1..], p)
    ensures Filter(s + t, p) == if p(s[0]) then [s[0]] + Filter(s[1..] + t, p) else Filter(s[1..] + t, p)
  {
    assert (s + t)[0] == s[0] && (s + t)[1..] == s[1..] + t;
  }

  lemma FilterOne<T>(x: T, p: T -> bool)
    ensures Filter([x], p) == if p(x) then [x] else []
  {
    assert [x] == [x] + [] && [x][1..] == [];
  }

  lemma Associate<T>(a: seq<T>, b: seq<T>, c: seq<T>)
    ensures a + (b + c) == (a + b) + c
  {
  }

  lemma {:induction false} FilterSorted(s: seq<Str>, p: Str -> bool)
    requires Sorted(s)
    ensures Sorted(Filter(s, p))
  {
    if s != [] {
      var r := Filter(s[1..], p);
      FilterSorted(s[1..], p);
      FilterMember(s[1..], p);
      forall i | 0 <= i < |r| ensures Less(s[0], r[i]) {
        assert r[i] in s[1..];
        var j :| 0 <= j < |s[1..]| && s[1..][j] == r[i];
        assert s[1 + j] == r[i];
      }
    }
  }

  lemma {:induction false} FilterDistinct<T(!new)>(s: seq<T>, p: T -> bool)
    requires Distinct(s)
    ensures Distinct(Filter(s, p))
  {
    if s != [] {
      var r := Filter(s[1..], p);
      FilterDistinct(s[1..], p);
      FilterMember(s[1..], p);
      forall i | 0 <= i < |r| ensures s[0] != r[i] {
        assert r[i] in s[1..];
        var j :| 0 <= j < |s[1..]| && s[1..][j] == r[i];
        assert s[1 + j] == r[i];
      }
    }
  }

  lemma {:induction false} FilterAll<T>(s: seq<T>, p: T -> bool)
    requires forall x | x in s :: p(x)
    ensures Filter(s, p) == s
  {
    if s != [] {
      FilterAll(s[1..], p);
      assert s == [s[0]] + s[1..];
    }
  }

  lemma {:induction false} FilterAgree<T>(s: seq<T>, p: T -> bool, q: T -> bool)
    requires forall x | x in s :: p(x) == q(x)
    ensures Filter(s, p) == Filter(s, q)
  {
    if s != [] { FilterAgree(s[1..], p, q); }
  }

  lemma {:induction false} FilterTwice<T>(s: seq<T>, p: T -> bool, q: T -> bool)
    requires forall x | x in s && q(x) :: p(x)
    ensures Filter(Filter(s, p), q) == Filter(s, q)
  {
    if s != [] {
      var r := Filter(s[1..], p);
      FilterTwice(s[1..], p, q);
      assert ([s[0]] + r)[1..] == r;
      assert [] + r == r;
    }
  }

  /** A sorted selection from a sorted list whose unselected elements all come later is a
      prefix of the list. */
  lemma {:induction false} SelectionIsPrefix(t: seq<Str>, s: seq<Str>)
    requires Sorted(t) && Sorted(s) && Elements(t) <= Elements(s)
    requires forall x, y | x in t && y in s && y !in t :: Less(x, y)
    ensures t <= s
  {
    if t != [] {
      assert t[0] in Elements(s);
      var j :| 0 <= j < |s| && s[j] == t[0];
      SortedIndex(s, 0, j);
      Trichotomy(t[0], s[0]);
      assert s[0] in t;
      var i :| 0 <= i < |t| && t[i] == s[0];
      SortedIndex(t, 0, i);
      SortedDistinct(s); SortedDistinct(t);
      assert s == [s[0]] + s[1..] && t == [t[0]] + t[1..];
      forall x | x in t[1..] ensures x in s[1..] {
        assert x in Elements(s);
      }
      SelectionIsPrefix(t[1..], s[1..]);
    }
  }

  lemma {:induction false} DistinctCount<T>(s: seq<T>)
    requires Distinct(s)
    ensures |Elements(s)| == |s|
  {
    if s != [] {
      DistinctCount(s[1..]);
      assert s == [s[0]] + s[1..];
      assert Elements(s) == {s[0]} + Elements(s[1..]);
    }
  }

  // ---- cursor scans

  /** `cursor.Seek`: position of the first key not below `k`. */
  function Seek(keys: seq<Str>, k: Str): (n: nat)
    ensures n <= |keys|
    ensures forall i | 0 <= i < n :: Less(keys[i], k)
    ensures n < |keys| ==> !Less(keys[n], k)
  {
    if keys == [] || !Less(keys[0], k) then 0
    else
      var m := Seek(keys[1..], k);
      assert forall i | 0 < i < m + 1 :: keys[i] == keys[1..][i - 1];
      m + 1
  }

  /** A scan from `p || c` that stops at the first key without prefix `p` misses no key `p || x`
      with `x` not below `c`. */
  lemma ScanIsComplete(keys: seq<Str>, p: Str, c: Str, n: nat, x: Str)
    requires Sorted(keys) && Seek(keys, p + c) <= n <= |keys|
    requires n < |keys| ==> !HasPrefix(keys[n], p)
    requires p + x in keys && Compare(c, x) <= 0
    ensures p + x in keys[Seek(keys, p + c)..n]
  {
    hide Compare; hide Seek;
    var j :| 0 <= j < |keys| && keys[j] == p + x;
    ScanReaches(keys, p, c, n, x, j);
    assert keys[Seek(keys, p + c)..n][j - Seek(keys, p + c)] == keys[j];
  }

  lemma ScanReaches(keys: seq<Str>, p: Str, c: Str, n: nat, x: Str, j: nat)
    requires Sorted(keys) && Seek(keys, p + c) <= n <= |keys|
    requires n < |keys| ==> !HasPrefix(keys[n], p)
    requires j < |keys| && keys[j] == p + x && Compare(c, x) <= 0
    ensures Seek(keys, p + c) <= j < n
  {
    hide Compare; hide Seek;
    CompareCommonPrefix(p, c, x); CompareFlip(p + c, p + x);
    if n < |keys| {
      StopIsPast(keys, p, c, n, x);
      SortedIndex(keys, j, n);
    }
  }

  lemma StopIsPast(keys: seq<Str>, p: Str, c: Str, n: nat, x: Str)
    requires Sorted(keys) && Seek(keys, p + c) <= n < |keys| && !HasPrefix(keys[n], p)
    ensures Less(p + x, keys[n])
  {
    var lo := Seek(keys, p + c);
    if lo < n { LessTransitive(p + c, keys[lo], keys[n]) by { CompareFlip(p + c, keys[lo]); } }
    CompareFlip(p + c, keys[n]);
    PrefixIsLeast(p, c);
    LessTransitive(p, p + c, keys[n]);
    if Compare(keys[n], p + x) <= 0 { BetweenPrefix(p, keys[n], x); }
    CompareFlip(keys[n], p + x);
  }

  /** The part of a sorted list after a cursor; the empty cursor stands before everything. */
  function After(s: seq<Str>, cursor: Str): seq<Str>
  {
    if cursor == [] then s else Filter(s, x => Less(cursor, x))
  }

  lemma AfterMember(s: seq<Str>, cursor: Str)
    ensures forall x :: x in After(s, cursor) <==> x in s && (cursor != [] ==> Less(cursor, x))
    ensures Sorted(s) ==> Sorted(After(s, cursor))
  {
    if cursor != [] {
      FilterMember(s, x => Less(cursor, x));
      if Sorted(s) { FilterSorted(s, x => Less(cursor, x)); }
    }
  }

  /** How many elements are not after the cursor. */
  function Position(s: seq<Str>, cursor: Str): (n: nat)
    ensures n <= |s|
  {
    if s == [] || cursor == [] || Less(cursor, s[0]) then 0 else 1 + Position(s[1..], cursor)
  }

  /** In a sorted list the part after a cursor is a suffix. */
  lemma {:induction false} AfterIsSuffix(s: seq<Str>, cursor: Str)
    requires Sorted(s)
    ensures After(s, cursor) == s[Position(s, cursor)..]
  {
    if s != [] && cursor != [] {
      if Less(cursor, s[0]) {
        forall x | x in s ensures Less(cursor, x) {
          var i :| 0 <= i < |s| && s[i] == x;
          if i > 0 { LessTransitive(cursor, s[0], s[i]); }
        }
        FilterAll(s, x => Less(cursor, x));
      } else {
        AfterIsSuffix(s[1..], cursor);
      }
    }
  }

  /** Taking the i-th element as the cursor leaves exactly the elements after it. */
  lemma {:induction false} PositionOfElement(s: seq<Str>, i: nat)
    requires Sorted(s) && i < |s| && s[i] != []
    ensures Position(s, s[i]) == i + 1
  {
    SortedIndex(s, i, 0);
    if i > 0 {
      PositionOfElement(s[1..], i - 1);
    } else if |s| > 1 {
      SortedIndex(s, 0, 1);
    }
  }
}
