/** The map format family of MessagePack (fixmap 0x80-0x8f with the length in the low nibble,
    map16 0xde with a big-endian 16-bit length, map32 0xdf with a big-endian 32-bit length) and
    the fast path that decodes a `map[string]int` without going through the generic engine. */
module MapFormat {
  import opened Types
  import opened Wire
  import opened Collaborators

  /** `isFixMap`: the fixmap codes are those whose high nibble is 0x8. */
  predicate IsFixMap(v: byte): (b: bool)
    ensures b <==> v / 0x10 == 0x8
  {
    FixMap <= v <= FixMap + 0x0f
  }

  /** `mapLength`: the element count of a map header at `off` and the offset after the header. */
  function MapLength(data: Bytes, off: nat, k: Kind): (r: Result<(nat, nat)>)
    ensures r.Ok? ==> off < r.value.1 <= |data| && r.value.0 < 0x1_0000_0000
  {
    match ReadSize1(data, off)
    case Err(e) => Err(e)
    case Ok((code, o)) =>
      if IsFixMap(code) then Ok(((code - FixMap) as nat, o))
      else if code == Map16 then
        match ReadBytes(data, o, 2)
        case Err(e) => Err(e)
        case Ok((bs, o2)) => Ok((Uint16(bs), o2))
      else if code == Map32 then
        match ReadBytes(data, o, 4)
        case Err(e) => Err(e)
        case Ok((bs, o4)) => Ok((Uint32(bs), o4))
      else Err(ErrorTemplate(code, k))
  }

  /** The shortest map header for `n` entries, as a MessagePack encoder writes it. */
  function MapHeader(n: nat): (h: Bytes)
    requires n < 0x1_0000_0000
    ensures 1 <= |h| <= 5
  {
    if n < 0x10 then [FixMap + n as byte]
    else if n < 0x1_0000 then [Map16] + ToUint16(n)
    else [Map32] + ToUint32(n)
  }

  /** The count `mapLength` takes from a fixmap code is the code's low nibble. */
  lemma FixMapCountIsLowNibble(v: byte)
    ensures IsFixMap(v) ==> (v - FixMap) as nat == (v % 0x10) as nat < 0x10
  {
  }

  /** What `mapLength` returns for each leading byte. */
  lemma MapLengthByCode(data: Bytes, off: nat, k: Kind)
    requires off < |data|
    ensures IsFixMap(data[off]) ==> MapLength(data, off, k) == Ok(((data[off] % 0x10) as nat, off + 1))
    ensures data[off] == Map16 && off + 3 <= |data| ==>
              MapLength(data, off, k) == Ok((Uint16(data[off + 1..off + 3]), off + 3))
    ensures data[off] == Map32 && off + 5 <= |data| ==>
              MapLength(data, off, k) == Ok((Uint32(data[off + 1..off + 5]), off + 5))
    ensures data[off] == Map16 && off + 3 > |data| ==> MapLength(data, off, k) == Err(OutOfRange(off + 1))
    ensures data[off] == Map32 && off + 5 > |data| ==> MapLength(data, off, k) == Err(OutOfRange(off + 1))
    ensures !IsFixMap(data[off]) && data[off] != Map16 && data[off] != Map32 ==>
              MapLength(data, off, k) == Err(InvalidCode(data[off], k))
  {
    FixMapCountIsLowNibble(data[off]);
  }

  /** Decoding the header an encoder writes for `n` entries gives back `n`, and the body
      starts right after the header. */
  lemma MapLengthRoundTrip(n: nat, rest: Bytes, k: Kind)
    requires n < 0x1_0000_0000
    ensures MapLength(MapHeader(n) + rest, 0, k) == Ok((n, |MapHeader(n)|))
  {
    var data := MapHeader(n) + rest;
    if n < 0x10 {
      FixMapCodeRoundTrip(n);
      assert ReadSize1(data, 0) == Ok((FixMap + n as byte, 1));
    } else if n < 0x1_0000 {
      assert ReadSize1(data, 0) == Ok((Map16, 1));
      assert !IsFixMap(Map16);
      assert ReadBytes(data, 1, 2) == Ok((ToUint16(n), 3));
      Uint16RoundTrip(n);
    } else {
      assert ReadSize1(data, 0) == Ok((Map32, 1));
      assert !IsFixMap(Map32);
      assert ReadBytes(data, 1, 4) == Ok((ToUint32(n), 5));
      Uint32RoundTrip(n);
    }
  }

  lemma FixMapCodeRoundTrip(n: nat)
    requires n < 0x10
    ensures IsFixMap(FixMap + n as byte) && (FixMap + n as byte - FixMap) as nat == n
  {
  }

  /** The only destination type with a fast path. */
  const StringIntMap: Dest := MapD(StrD, IntD(Platform))

  /** The result of `asFixedMap`: the destination afterwards, then the offset and whether the
      fast path applied, or the error. */
  datatype FixedOutcome = FixedOutcome(dst: Value, res: Result<(nat, bool)>)

  /** The fast-path loop from pair `i` on: a string key, then an int value, stored in `m`. */
  function FixedMapLoop(dec: Decoder, l: nat, i: nat, m: map<Value, Value>, off: nat): (p: Partial<map<Value, Value>>)
    requires i <= l
    requires EntriesConform(m, StrD, IntD(Platform))
    ensures EntriesConform(p.acc, StrD, IntD(Platform))
    ensures Valid(dec) && off <= |dec.data| && p.res.Ok? ==> off <= p.res.value <= |dec.data|
    decreases l - i
  {
    if i == l then Partial(m, Ok(off))
    else
      match dec.readers.asString(dec.data, off)
      case Err(e) => Partial(m, Err(e))
      case Ok((k, o)) =>
        match dec.readers.asInt(dec.data, o, Platform)
        case Err(e) => Partial(m, Err(e))
        case Ok((v, o2)) =>
          assert Valid(dec) ==> (Advances(dec.readers.asString(dec.data, off), dec.data, off)
                                 && Advances(dec.readers.asInt(dec.data, o, Platform), dec.data, o));
          FixedMapLoop(dec, l, i + 1, m[StrV(k) := IntV(v)], o2)
  }

  /** `asFixedMap` as a function of the destination, the offset after the header and the
      header's count `l`. */
  function FixedMap(dec: Decoder, d: Dest, cur: Value, off: nat, l: nat): (r: FixedOutcome)
    requires Conforms(cur, d)
    ensures Conforms(r.dst, d)
    ensures Valid(dec) && off <= |dec.data| && r.res.Ok? ==> off <= r.res.value.0 <= |dec.data|
  {
    if d == StringIntMap then
      match FixedMapLoop(dec, l, 0, map[], off)
      case Partial(_, Err(e)) => FixedOutcome(cur, Err(e))
      case Partial(m, Ok(o)) => FixedOutcome(MapV(Some(m)), Ok((o, true)))
    else FixedOutcome(cur, Ok((off, false)))
  }

  /** `asFixedMap`: for `map[string]int`, decodes `l` pairs into a fresh map and only then
      stores it in the destination; for any other type, reports that it does not apply. */
  method AsFixedMap(dec: Decoder, d: Dest, cur: Value, off: nat, l: nat) returns (dst: Value, res: Result<(nat, bool)>)
    requires Conforms(cur, d)
    ensures FixedOutcome(dst, res) == FixedMap(dec, d, cur, off, l)
  {
    if d != StringIntMap {
      return cur, Ok((off, false));
    }
    var m := map[];
    var offset := off;
    var i := 0;
    while i < l
      invariant i <= l
      invariant EntriesConform(m, StrD, IntD(Platform))
      invariant FixedMapLoop(dec, l, i, m, offset) == FixedMapLoop(dec, l, 0, map[], off)
    {
      var key := dec.readers.asString(dec.data, offset);
      if key.Err? {
        return cur, Err(key.error);
      }
      var value := dec.readers.asInt(dec.data, key.value.1, Platform);
      if value.Err? {
        return cur, Err(value.error);
      }
      m := m[StrV(key.value.0) := IntV(value.value.0)];
      offset := value.value.1;
      i := i + 1;
    }
    return MapV(Some(m)), Ok((offset, true));
  }
}
