/** The stored envelope, its binary codec and its index keys (internal/model/envelope.go). */
module Envelopes {
  import opened ByteStrings
  import opened Rfc3339

  datatype Envelope = Envelope(
    id: Str, destination: Str, payload: Str, origin: Str, hops: int, created: Time, expires: Time)

  /** Go's zero time, 0001-01-01T00:00:00Z. */
  const ZERO_TIME: Time := -62135596800 * SECOND

  predicate Valid(e: Envelope)
  {
    && e.id != [] && e.destination != []
    && e.created != ZERO_TIME && e.expires != ZERO_TIME
    && e.created <= e.expires
  }

  // ---- codec

  datatype DecodeError = InvalidId | InvalidDestination | TooLarge
  datatype Decoded = Ok(envelope: Envelope) | Err(error: DecodeError)

  const U16: int := 65536
  const U32: int := 0x1_0000_0000

  /** A length-prefixed field; the length keeps only its low bytes. */
  function Field(x: Str, w: nat): Str
    requires w == 2 || w == 4
  {
    BigEndian(if w == 2 then |x| % U16 else |x| % U32, w) + x
  }

  function Trailer(hops: int, created: Time, expires: Time): Str
  {
    BigEndian(hops % U16, 2) + (PutInt64(created) + PutInt64(expires))
  }

  function Encode(e: Envelope): Str
  {
    Field(e.id, 2) + (Field(e.destination, 2) + (Field(e.origin, 2) + (Field(e.payload, 4) +
      Trailer(e.hops, e.created, e.expires))))
  }

  lemma EncodedLength(e: Envelope)
    ensures |Encode(e)| == 28 + |e.id| + |e.destination| + |e.origin| + |e.payload|
  {
  }

  datatype Read<T> = Read(value: T, rest: Str)

  /** A short integer read leaves zero and drains the buffer. */
  function ReadUint(buf: Str, w: nat): Read<nat>
  {
    if |buf| >= w then Read(FromBigEndian(buf[..w]), buf[w..]) else Read(0, [])
  }

  function ReadInt64(buf: Str): Read<int>
  {
    if |buf| >= 8 then Read(GetInt64(buf[..8]), buf[8..]) else Read(0, [])
  }

  /** A length-prefixed field, or nothing when the buffer is shorter than its length says. */
  function ReadField(buf: Str, w: nat): Option<Read<Str>>
  {
    var n := ReadUint(buf, w);
    if |n.rest| < n.value then None else Some(Read(n.rest[..n.value], n.rest[n.value..]))
  }

  function ReadTrailer(buf: Str): (nat, Time, Time)
  {
    var hops := ReadUint(buf, 2);
    var created := ReadInt64(hops.rest);
    var expires := ReadInt64(created.rest);
    (hops.value, created.value, expires.value)
  }

  function Decode(data: Str): Decoded
  {
    if |data| < 2 then Err(InvalidId) else
    var id := ReadField(data, 2);
    if id.None? then Err(InvalidId) else DecodeDestination(id.value.value, id.value.rest)
  }

  function DecodeDestination(id: Str, buf: Str): Decoded
  {
    var dest := ReadField(buf, 2);
    if dest.None? then Err(InvalidDestination) else DecodeOrigin(id, dest.value.value, dest.value.rest)
  }

  function DecodeOrigin(id: Str, dest: Str, buf: Str): Decoded
  {
    var origin := ReadField(buf, 2);
    if origin.None? then Err(InvalidDestination) else DecodePayload(id, dest, origin.value.value, origin.value.rest)
  }

  function DecodePayload(id: Str, dest: Str, origin: Str, buf: Str): Decoded
  {
    var payload := ReadField(buf, 4);
    if payload.None? then Err(TooLarge) else
    var (hops, created, expires) := ReadTrailer(payload.value.rest);
    Ok(Envelope(id, dest, payload.value.value, origin, hops, created, expires))
  }

  /** What the fixed-width fields can hold. */
  predicate InCodecRange(e: Envelope)
  {
    && |e.id| < U16 && |e.destination| < U16 && |e.origin| < U16 && |e.payload| < U32
    && 0 <= e.hops < U16
    && ValidTime(e.created) && ValidTime(e.expires)
  }

  predicate FitsWidth(n: nat, w: nat) { (w == 2 && n < U16) || (w == 4 && n < U32) }

  lemma FitsPow(n: nat, w: nat)
    requires FitsWidth(n, w)
    ensures n < Pow256(w)
  {
    WidthValues();
  }

  lemma FieldSplit(x: Str, w: nat, rest: Str)
    requires FitsWidth(|x|, w)
    ensures Field(x, w) + rest == BigEndian(|x|, w) + (x + rest)
  {
    hide BigEndian;
  }

  lemma ReadFieldBack(x: Str, w: nat, rest: Str)
    requires FitsWidth(|x|, w)
    ensures ReadField(Field(x, w) + rest, w) == Some(Read(x, rest))
  {
    FitsPow(|x|, w);
    FieldSplit(x, w, rest);
    BigEndianRoundTrip(|x|, w);
    ReadFieldOf(BigEndian(|x|, w), x, rest);
  }

  lemma ReadFieldOf(length: Str, x: Str, rest: Str)
    requires FromBigEndian(length) == |x|
    ensures ReadField(length + (x + rest), |length|) == Some(Read(x, rest))
  {
    var s := length + (x + rest);
    assert s[..|length|] == length && s[|length|..] == x + rest;
    assert (x + rest)[..|x|] == x && (x + rest)[|x|..] == rest;
  }

  lemma ReadTrailerOf(h: Str, c: Str, e: Str)
    requires |h| == 2 && |c| == 8 && |e| == 8
    ensures ReadTrailer(h + (c + e)) == (FromBigEndian(h), GetInt64(c), GetInt64(e))
  {
    var s := h + (c + e);
    assert s[..2] == h && s[2..] == c + e;
    assert (c + e)[..8] == c && (c + e)[8..] == e;
    assert e[..8] == e;
  }

  lemma TrailerParts(hops: int, created: Time, expires: Time)
    requires 0 <= hops < U16
    ensures ReadTrailer(Trailer(hops, created, expires)) ==
            (FromBigEndian(BigEndian(hops, 2)), GetInt64(PutInt64(created)), GetInt64(PutInt64(expires)))
  {
    hide BigEndian; hide PutInt64; hide FromBigEndian;
    assert hops % U16 == hops;
    ReadTrailerOf(BigEndian(hops, 2), PutInt64(created), PutInt64(expires));
  }

  lemma TrailerIntegers(hops: int, created: Time, expires: Time)
    requires 0 <= hops < U16 && ValidTime(created) && ValidTime(expires)
    ensures FromBigEndian(BigEndian(hops, 2)) == hops
    ensures GetInt64(PutInt64(created)) == created && GetInt64(PutInt64(expires)) == expires
  {
    FitsPow(hops, 2);
    BigEndianRoundTrip(hops, 2);
    Int64RoundTrip(created); Int64RoundTrip(expires);
  }

  lemma ReadTrailerBack(hops: int, created: Time, expires: Time)
    requires 0 <= hops < U16 && ValidTime(created) && ValidTime(expires)
    ensures ReadTrailer(Trailer(hops, created, expires)) == (hops, created, expires)
  {
    TrailerParts(hops, created, expires);
    TrailerIntegers(hops, created, expires);
  }

  lemma PayloadBack(e: Envelope)
    requires InCodecRange(e)
    ensures DecodePayload(e.id, e.destination, e.origin,
                          Field(e.payload, 4) + Trailer(e.hops, e.created, e.expires)) == Ok(e)
  {
    ReadTrailerBack(e.hops, e.created, e.expires);
    ReadFieldBack(e.payload, 4, Trailer(e.hops, e.created, e.expires));
  }

  lemma OriginBack(id: Str, dest: Str, x: Str, rest: Str)
    requires FitsWidth(|x|, 2)
    ensures DecodeOrigin(id, dest, Field(x, 2) + rest) == DecodePayload(id, dest, x, rest)
  {
    ReadFieldBack(x, 2, rest);
  }

  lemma DestinationBack(id: Str, x: Str, rest: Str)
    requires FitsWidth(|x|, 2)
    ensures DecodeDestination(id, Field(x, 2) + rest) == DecodeOrigin(id, x, rest)
  {
    ReadFieldBack(x, 2, rest);
  }

  lemma IdBack(x: Str, rest: Str)
    requires FitsWidth(|x|, 2)
    ensures Decode(Field(x, 2) + rest) == DecodeDestination(x, rest)
  {
    ReadFieldBack(x, 2, rest);
    assert |Field(x, 2)| >= 2;
  }

  lemma RoundTrip(e: Envelope)
    requires InCodecRange(e)
    ensures Decode(Encode(e)) == Ok(e)
  {
    hide Field;
    var p := Field(e.payload, 4) + Trailer(e.hops, e.created, e.expires);
    var o := Field(e.origin, 2) + p;
    var d := Field(e.destination, 2) + o;
    IdBack(e.id, d);
    DestinationBack(e.id, e.destination, o);
    OriginBack(e.id, e.destination, e.origin, p);
    PayloadBack(e);
  }

  lemma {:induction false} FromBigEndianBound(s: Str)
    ensures FromBigEndian(s) < Pow256(|s|)
  {
    if s != [] { FromBigEndianBound(s[..|s| - 1]); }
  }

  /** Whatever decodes is within the widths of the format. */
  lemma DecodedInRange(data: Str)
    requires Decode(data).Ok?
    ensures InCodecRange(Decode(data).envelope)
  {
    WidthValues();
    ReadUintBound(data, 2);
    var id := ReadField(data, 2).value;
    ReadUintBound(id.rest, 2);
    var dest := ReadField(id.rest, 2).value;
    ReadUintBound(dest.rest, 2);
    var origin := ReadField(dest.rest, 2).value;
    ReadUintBound(origin.rest, 4);
    var payload := ReadField(origin.rest, 4).value;
    ReadUintBound(payload.rest, 2);
    var hops := ReadUint(payload.rest, 2);
    ReadInt64Bound(hops.rest);
    ReadInt64Bound(ReadInt64(hops.rest).rest);
  }

  lemma ReadUintBound(buf: Str, w: nat)
    ensures ReadUint(buf, w).value < Pow256(w)
  {
    if |buf| >= w { FromBigEndianBound(buf[..w]); }
  }

  lemma ReadInt64Bound(buf: Str)
    ensures ValidTime(ReadInt64(buf).value)
  {
    WidthValues();
    if |buf| >= 8 { FromBigEndianBound(buf[..8]); }
  }

  /** The codec is lossless exactly on the envelopes its field widths can hold. */
  lemma CodecExact(e: Envelope)
    ensures Decode(Encode(e)) == Ok(e) <==> InCodecRange(e)
  {
    if InCodecRange(e) { RoundTrip(e); }
    if Decode(Encode(e)).Ok? { DecodedInRange(Encode(e)); }
  }

  // ---- index keys

  function DestinationKey(destination: Str, id: Str): Str { destination + [0] + id }

  function ExpiryKey(expires: Time, id: Str): Str
    requires ValidTime(expires)
  {
    Text(expires) + [0] + id
  }

  function SeenKey(id: Str, relay: Str): Str { id + [0] + relay }

  lemma ExpiryKeyInjective(t: Time, x: Str, u: Time, y: Str)
    requires ValidTime(t) && ValidTime(u) && ExpiryKey(t, x) == ExpiryKey(u, y)
    ensures t == u && x == y
  {
    TextShape(t, u); TextShape(u, t);
    NulSeparated(Text(t), x, Text(u), y);
    if t / SECOND < u / SECOND { TextOrderAcrossSeconds(t, u); Trichotomy(Text(t), Text(u)); }
    else if u / SECOND < t / SECOND { TextOrderAcrossSeconds(u, t); Trichotomy(Text(u), Text(t)); }
    else { TextOrderWithinSecond(t, u); }
  }

  /** An envelope written out: lengths before the four fields, then hops, creation and expiry. */
  lemma EncodeExample()
    ensures Encode(Envelope([97], [98, 99], [1, 2, 3], [114], 5, -1, 258)) ==
            [0, 1, 97] + [0, 2, 98, 99] + [0, 1, 114] + [0, 0, 0, 3, 1, 2, 3] + [0, 5]
            + [255, 255, 255, 255, 255, 255, 255, 255] + [0, 0, 0, 0, 0, 0, 1, 2]
  {
    hide PutInt64; hide BigEndian;
    Int64Examples();
    TwoBytes(1); TwoBytes(2); TwoBytes(5);
    FourBytes(3);
  }

  lemma TwoBytes(n: nat)
    requires n < 256
    ensures BigEndian(n, 2) == [0, n]
  {
    assert BigEndian(n / 256, 1) == [0];
  }

  lemma FourBytes(n: nat)
    requires n < 256
    ensures BigEndian(n, 4) == [0, 0, 0, n]
  {
    TwoBytes(0);
    assert BigEndian(0, 3) == BigEndian(0, 2) + [0];
    assert BigEndian(n, 4) == BigEndian(n / 256, 3) + [n % 256];
  }
}
