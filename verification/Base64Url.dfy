/** Unpadded base64url (section 5 of RFC 4648) as Go's `base64.RawURLEncoding` reads and
    writes it. The decoder skips CR and LF anywhere, also in strict mode; strict mode refuses
    non-zero trailing bits. */
module Base64Url {
  import opened ByteStrings

  const CR: Byte := 13
  const LF: Byte := 10
  const PAD: Byte := 61

  function Char(v: nat): Byte
    requires v < 64
  {
    if v < 26 then 65 + v else if v < 52 then 71 + v else if v < 62 then v - 4 else if v == 62 then 45 else 95
  }

  function Value(c: Byte): (v: Option<nat>)
    ensures v.Some? ==> v.value < 64
  {
    if 65 <= c <= 90 then Some(c - 65)
    else if 97 <= c <= 122 then Some(c - 71)
    else if 48 <= c <= 57 then Some(c + 4)
    else if c == 45 then Some(62)
    else if c == 95 then Some(63)
    else None
  }

  function Encode(b: Str): Str
  {
    if |b| == 0 then []
    else if |b| == 1 then [Char(b[0] / 4), Char(b[0] % 4 * 16)]
    else if |b| == 2 then [Char(b[0] / 4), Char(b[0] % 4 * 16 + b[1] / 16), Char(b[1] % 16 * 4)]
    else [Char(b[0] / 4), Char(b[0] % 4 * 16 + b[1] / 16), Char(b[1] % 16 * 4 + b[2] / 64), Char(b[2] % 64)]
         + Encode(b[3..])
  }

  function DropNewlines(s: Str): Str
  {
    if s == [] then [] else (if s[0] == CR || s[0] == LF then [] else [s[0]]) + DropNewlines(s[1..])
  }

  /** Decoding of a text without newlines. */
  function DecodeGroups(s: Str, strict: bool): Option<Str>
  {
    if |s| == 0 then Some([])
    else if |s| == 1 then None
    else if |s| == 2 then
      var v0, v1 := Value(s[0]), Value(s[1]);
      if v0.None? || v1.None? || (strict && v1.value % 16 != 0) then None
      else Some([v0.value * 4 + v1.value / 16])
    else if |s| == 3 then
      var v0, v1, v2 := Value(s[0]), Value(s[1]), Value(s[2]);
      if v0.None? || v1.None? || v2.None? || (strict && v2.value % 4 != 0) then None
      else Some([v0.value * 4 + v1.value / 16, v1.value % 16 * 16 + v2.value / 4])
    else
      var v0, v1, v2, v3, rest := Value(s[0]), Value(s[1]), Value(s[2]), Value(s[3]), DecodeGroups(s[4..], strict);
      if v0.None? || v1.None? || v2.None? || v3.None? || rest.None? then None
      else Some([v0.value * 4 + v1.value / 16, v1.value % 16 * 16 + v2.value / 4, v2.value % 4 * 64 + v3.value]
                + rest.value)
  }

  function Decode(s: Str, strict: bool): Option<Str> { DecodeGroups(DropNewlines(s), strict) }

  lemma CharValue(v: nat)
    requires v < 64
    ensures Value(Char(v)) == Some(v) && Char(v) != CR && Char(v) != LF && Char(v) != PAD
  {
  }

  lemma ValueChar(c: Byte)
    requires Value(c).Some?
    ensures Char(Value(c).value) == c
  {
  }

  ghost predicate Plain(s: Str) { forall i | 0 <= i < |s| :: Value(s[i]).Some? }

  lemma {:induction false} EncodeIsPlain(b: Str)
    ensures Plain(Encode(b))
    ensures Encode(b) == [] <==> b == []
  {
    if |b| == 1 {
      CharValue(b[0] / 4); CharValue(b[0] % 4 * 16);
    } else if |b| == 2 {
      CharValue(b[0] / 4); CharValue(b[0] % 4 * 16 + b[1] / 16); CharValue(b[1] % 16 * 4);
    } else if |b| > 2 {
      CharValue(b[0] / 4); CharValue(b[0] % 4 * 16 + b[1] / 16);
      CharValue(b[1] % 16 * 4 + b[2] / 64); CharValue(b[2] % 64);
      EncodeIsPlain(b[3..]);
    }
  }

  ghost predicate NewlineFree(s: Str) { CR !in s && LF !in s }

  lemma {:induction false} DropNothing(s: Str)
    ensures DropNewlines(s) == s <==> NewlineFree(s)
    ensures |DropNewlines(s)| <= |s|
  {
    if s != [] {
      DropNothing(s[1..]);
      assert s == [s[0]] + s[1..];
    }
  }

  lemma PlainIsNewlineFree(s: Str)
    requires Plain(s)
    ensures NewlineFree(s) && PAD !in s
  {
    assert Value(CR) == None && Value(LF) == None && Value(PAD) == None;
  }

  /** Joins of sextets and their inverses. */
  lemma Sextets(x: Byte, y: Byte, z: Byte)
    ensures x / 4 * 4 + (x % 4 * 16 + y / 16) / 16 == x
    ensures (x % 4 * 16 + y / 16) % 16 * 16 + (y % 16 * 4 + z / 64) / 4 == y
    ensures (y % 16 * 4 + z / 64) % 4 * 64 + z % 64 == z
  {
    assert (x % 4 * 16 + y / 16) / 16 == x % 4 && (x % 4 * 16 + y / 16) % 16 == y / 16;
    assert (y % 16 * 4 + z / 64) / 4 == y % 16 && (y % 16 * 4 + z / 64) % 4 == z / 64;
  }

  lemma OneByte(x: Byte, strict: bool)
    ensures DecodeGroups(Encode([x]), strict) == Some([x])
  {
    hide Value; hide Char;
    CharValue(x / 4); CharValue(x % 4 * 16);
    assert x % 4 * 16 % 16 == 0 && x % 4 * 16 / 16 == x % 4;
  }

  lemma TwoBytes(x: Byte, y: Byte, strict: bool)
    ensures DecodeGroups(Encode([x, y]), strict) == Some([x, y])
  {
    hide Value; hide Char;
    CharValue(x / 4); CharValue(x % 4 * 16 + y / 16); CharValue(y % 16 * 4);
    assert (x % 4 * 16 + y / 16) / 16 == x % 4 && (x % 4 * 16 + y / 16) % 16 == y / 16;
    assert y % 16 * 4 % 4 == 0 && y % 16 * 4 / 4 == y % 16;
  }

  lemma ThreeBytes(x: Byte, y: Byte, z: Byte, rest: Str, strict: bool)
    requires DecodeGroups(Encode(rest), strict) == Some(rest)
    ensures DecodeGroups(Encode([x, y, z] + rest), strict) == Some([x, y, z] + rest)
  {
    hide Value; hide Char;
    CharValue(x / 4); CharValue(x % 4 * 16 + y / 16); CharValue(y % 16 * 4 + z / 64); CharValue(z % 64);
    Sextets(x, y, z);
    assert ([x, y, z] + rest)[3..] == rest;
    FourAhead([x, y, z] + rest, strict);
  }

  lemma {:induction false} GroupsRoundTrip(b: Str, strict: bool)
    ensures DecodeGroups(Encode(b), strict) == Some(b)
  {
    hide Encode; hide DecodeGroups;
    if |b| == 0 {
      NoBytes(strict);
    } else if |b| == 1 {
      OneByte(b[0], strict);
      assert b == [b[0]];
    } else if |b| == 2 {
      TwoBytes(b[0], b[1], strict);
      assert b == [b[0], b[1]];
    } else {
      GroupsRoundTrip(b[3..], strict);
      ThreeBytes(b[0], b[1], b[2], b[3..], strict);
      assert b == [b[0], b[1], b[2]] + b[3..];
    }
  }

  lemma NoBytes(strict: bool)
    ensures DecodeGroups(Encode([]), strict) == Some([])
  {
  }

  lemma FourAhead(b: Str, strict: bool)
    requires |b| > 2
    ensures Encode(b)[4..] == Encode(b[3..])
  {
  }

  /** Every byte string survives encoding and decoding, strict or not. */
  lemma RoundTrip(b: Str, strict: bool)
    ensures Decode(Encode(b), strict) == Some(b)
  {
    EncodeIsPlain(b);
    PlainIsNewlineFree(Encode(b));
    DropNothing(Encode(b));
    GroupsRoundTrip(b, strict);
  }

  lemma JoinedSextets(v0: nat, v1: nat, v2: nat, v3: nat)
    requires v0 < 64 && v1 < 64 && v2 < 64 && v3 < 64
    ensures var x, y, z := v0 * 4 + v1 / 16, v1 % 16 * 16 + v2 / 4, v2 % 4 * 64 + v3;
            x / 4 == v0 && x % 4 * 16 + y / 16 == v1 && y % 16 * 4 + z / 64 == v2 && z % 64 == v3
  {
  }

  lemma TwoChars(c0: Byte, c1: Byte)
    requires DecodeGroups([c0, c1], true).Some?
    ensures Encode(DecodeGroups([c0, c1], true).value) == [c0, c1]
  {
    hide Value; hide Char;
    ValueChar(c0); ValueChar(c1);
    JoinedSextets(Value(c0).value, Value(c1).value, 0, 0);
  }

  lemma ThreeChars(c0: Byte, c1: Byte, c2: Byte)
    requires DecodeGroups([c0, c1, c2], true).Some?
    ensures Encode(DecodeGroups([c0, c1, c2], true).value) == [c0, c1, c2]
  {
    hide Value; hide Char;
    ValueChar(c0); ValueChar(c1); ValueChar(c2);
    JoinedSextets(Value(c0).value, Value(c1).value, Value(c2).value, 0);
  }

  lemma ShortGroupsInjective(s: Str)
    requires |s| < 4 && DecodeGroups(s, true).Some?
    ensures Encode(DecodeGroups(s, true).value) == s
  {
    hide Value; hide Char;
    if |s| == 2 {
      assert s == [s[0], s[1]];
      TwoChars(s[0], s[1]);
    } else if |s| == 3 {
      assert s == [s[0], s[1], s[2]];
      ThreeChars(s[0], s[1], s[2]);
    }
  }

  lemma FullGroup(c0: Byte, c1: Byte, c2: Byte, c3: Byte, b: Str)
    requires Value(c0).Some? && Value(c1).Some? && Value(c2).Some? && Value(c3).Some?
    ensures var v0, v1, v2, v3 := Value(c0).value, Value(c1).value, Value(c2).value, Value(c3).value;
            Encode([v0 * 4 + v1 / 16, v1 % 16 * 16 + v2 / 4, v2 % 4 * 64 + v3] + b) == [c0, c1, c2, c3] + Encode(b)
  {
    hide Value; hide Char;
    var v0, v1, v2, v3 := Value(c0).value, Value(c1).value, Value(c2).value, Value(c3).value;
    ValueChar(c0); ValueChar(c1); ValueChar(c2); ValueChar(c3);
    JoinedSextets(v0, v1, v2, v3);
    var t := [v0 * 4 + v1 / 16, v1 % 16 * 16 + v2 / 4, v2 % 4 * 64 + v3] + b;
    assert t[3..] == b;
  }

  lemma {:induction false} StrictGroupsInjective(s: Str)
    requires DecodeGroups(s, true).Some?
    ensures Encode(DecodeGroups(s, true).value) == s
  {
    hide Value; hide Char; hide Encode;
    if |s| < 4 {
      ShortGroupsInjective(s);
    } else {
      StrictGroupsInjective(s[4..]);
      FullGroup(s[0], s[1], s[2], s[3], DecodeGroups(s[4..], true).value);
      assert s == [s[0], s[1], s[2], s[3]] + s[4..];
    }
  }

  /** Re-encoding what the strict decoder accepted gives the text back without its newlines, so
      the text itself comes back exactly when it holds no CR or LF. */
  lemma StrictTextPreserved(s: Str)
    requires Decode(s, true).Some?
    ensures Encode(Decode(s, true).value) == DropNewlines(s)
    ensures Encode(Decode(s, true).value) == s <==> NewlineFree(s)
  {
    StrictGroupsInjective(DropNewlines(s));
    DropNothing(s);
  }

  /** Vectors of section 10 of RFC 4648, `Zm9vYmE` for `fooba`, and the two characters in which the
      URL alphabet differs, `-_8`. */
  lemma Examples()
    ensures Encode([102, 111, 111, 98, 97]) == [90, 109, 57, 118, 89, 109, 69]
    ensures Encode([251, 255]) == [45, 95, 56]
    ensures Decode([45, 95, 57], false) == Some([251, 255]) && Decode([45, 95, 57], true) == None
  {
    assert [102, 111, 111, 98, 97][3..] == [98, 97];
    assert DropNewlines([57]) == [57] by { assert [57][1..] == []; }
    assert DropNewlines([95, 57]) == [95, 57] by { assert [95, 57][1..] == [57]; }
    assert DropNewlines([45, 95, 57]) == [45, 95, 57] by { assert [45, 95, 57][1..] == [95, 57]; }
  }
}
