/** The type-directed dispatcher `deserialize`, as functions: what decoding the wire value at
    `off` into a destination of type `d` currently holding `cur` leaves in the destination, and
    the offset after that value or the error. The container kinds each have a function of their
    own, and each element loop is a function that takes the loop's state and runs it to the end.

    Every function here keeps the destination well typed, and, when the collaborators are
    `Valid`, a success moves the offset forward and not past the end of the buffer. */
module Engine {
  import opened Types
  import opened Wire
  import opened Collaborators
  import opened MapFormat

  /** `deserialize(rv, offset)`, dispatching on the destination's kind. */
  function Des(dec: Decoder, d: Dest, cur: Value, off: nat): (r: Decoded)
    requires Conforms(cur, d)
    ensures Conforms(r.dst, d)
    ensures Valid(dec) && r.res.Ok? ==> off < r.res.value <= |dec.data|
    decreases d, 4
  {
    var data, rd := dec.data, dec.readers;
    match d
    case IntD(w) =>
      (match rd.asInt(data, off, w)
       case Err(e) => Decoded(cur, Err(e))
       case Ok((v, o)) =>
         assert Valid(dec) ==> Advances(rd.asInt(data, off, w), data, off);
         Decoded(IntV(v), Ok(o)))
    case UintD(w) =>
      (match rd.asUint(data, off, w)
       case Err(e) => Decoded(cur, Err(e))
       case Ok((v, o)) =>
         assert Valid(dec) ==> Advances(rd.asUint(data, off, w), data, off);
         Decoded(UintV(v), Ok(o)))
    case Float32D =>
      (match rd.asFloat32(data, off)
       case Err(e) => Decoded(cur, Err(e))
       case Ok((v, o)) =>
         assert Valid(dec) ==> Advances(rd.asFloat32(data, off), data, off);
         Decoded(FloatV(v), Ok(o)))
    case Float64D =>
      (match rd.asFloat64(data, off)
       case Err(e) => Decoded(cur, Err(e))
       case Ok((v, o)) =>
         assert Valid(dec) ==> Advances(rd.asFloat64(data, off), data, off);
         Decoded(FloatV(v), Ok(o)))
    case StrD =>
      (match rd.asString(data, off)
       case Err(e) => Decoded(cur, Err(e))
       case Ok((v, o)) =>
         assert Valid(dec) ==> Advances(rd.asString(data, off), data, off);
         Decoded(StrV(v), Ok(o)))
    case BoolD =>
      (match rd.asBool(data, off)
       case Err(e) => Decoded(cur, Err(e))
       case Ok((v, o)) =>
         assert Valid(dec) ==> Advances(rd.asBool(data, off), data, off);
         Decoded(BoolV(v), Ok(o)))
    case SliceD(_) => DesSlice(dec, d, cur, off)
    case ArrayD(_, _) => DesArray(dec, d, cur, off)
    case MapD(_, _) => DesMap(dec, d, cur, off)
    case StructD(_) => DesStruct(dec, d, cur, off)
    case PtrD(t) =>
      if off >= |data| then Decoded(cur, Err(OutOfRange(off)))
      else if IsCodeNil(data[off]) then Decoded(cur, Ok(off + 1))
      else
        // a nil pointer is first pointed at a fresh zero value, then decoded into
        var inner := Des(dec, t, cur.target.GetOr(Zero(t)), off);
        Decoded(PtrV(Some(inner.dst)), inner.res)
    case IfaceD =>
      (match rd.asInterface(data, off)
       case Err(e) => Decoded(cur, Err(e))
       case Ok((v, o)) =>
         assert Valid(dec) ==> Advances(rd.asInterface(data, off), data, off);
         if v.Some? then Decoded(IfaceV(v), Ok(o)) else Decoded(cur, Ok(o)))
    case UintptrD | OtherD(_) =>
      if off < |data| then Decoded(cur, Err(ErrorTemplate(data[off], KindOf(d))))
      else Decoded(cur, Err(OutOfRange(off)))
  }

  /** The `reflect.Slice` case. */
  function DesSlice(dec: Decoder, d: Dest, cur: Value, off: nat): (r: Decoded)
    requires d.SliceD? && Conforms(cur, d)
    ensures Conforms(r.dst, d)
    ensures Valid(dec) && r.res.Ok? ==> off < r.res.value <= |dec.data|
    decreases d, 3
  {
    var data, rd := dec.data, dec.readers;
    if off >= |data| then Decoded(cur, Err(OutOfRange(off)))
    else if IsCodeNil(data[off]) then Decoded(cur, Ok(off + 1))
    else if IsCodeBin(data[off]) then
      match rd.asBin(data, off)
      case Err(e) => Decoded(cur, Err(e))
      case Ok((bs, o)) =>
        assert Valid(dec) ==> Advances(rd.asBin(data, off), data, off);
        SetBytes(d, cur, bs, o)
    else if IsCodeString(data[off]) then
      match rd.stringByteLength(data, off)
      case Err(e) => Decoded(cur, Err(e))
      case Ok((l, o)) =>
        assert Valid(dec) ==> Advances(rd.stringByteLength(data, off), data, off);
        match ReadBytes(data, o, l)
        case Err(e) => Decoded(cur, Err(e))
        case Ok((bs, o2)) => SetBytes(d, cur, bs, o2)
    else
      match rd.sliceLength(data, off)
      case Err(e) => Decoded(cur, Err(e))
      case Ok((l, o)) =>
        assert Valid(dec) ==> Advances(rd.sliceLength(data, off), data, off);
        // the slice is built aside and stored only once every element has decoded
        var p := SliceLoop(dec, d, l, [], o);
        if p.res.Err? then Decoded(cur, p.res) else Decoded(SliceV(p.acc), p.res)
  }

  /** The elements of a byte string as `uint8` values. */
  function ByteValues(bs: Bytes): (vs: seq<Value>)
    ensures |vs| == |bs|
  {
    seq(|bs|, i requires 0 <= i < |bs| => UintV(bs[i] as nat))
  }

  /** `rv.SetBytes(bs)`, which only a slice of `uint8` accepts. */
  function SetBytes(d: Dest, cur: Value, bs: Bytes, o: nat): (r: Decoded)
    requires d.SliceD? && Conforms(cur, d)
    ensures Conforms(r.dst, d)
    ensures r.res.Ok? <==> d.elem == UintD(W8)
    ensures r.res.Ok? ==> r.res == Ok(o) && |r.dst.elems| == |bs|
    ensures r.res.Err? ==> r.dst == cur
  {
    if d.elem == UintD(W8) then Decoded(SliceV(ByteValues(bs)), Ok(o))
    else Decoded(cur, Err(NotAssignable(SliceKind)))
  }

  /** The generic slice loop from element `|acc|` on: each element is decoded into a fresh
      zero value of the element type and appended. */
  function SliceLoop(dec: Decoder, d: Dest, l: nat, acc: seq<Value>, o: nat): (p: Partial<seq<Value>>)
    requires d.SliceD? && |acc| <= l
    requires forall i :: 0 <= i < |acc| ==> Conforms(acc[i], d.elem)
    ensures forall i :: 0 <= i < |p.acc| ==> Conforms(p.acc[i], d.elem)
    ensures p.res.Ok? ==> |p.acc| == l
    ensures Valid(dec) && o <= |dec.data| && p.res.Ok? ==> o <= p.res.value <= |dec.data|
    decreases d, 1, l - |acc|
  {
    if |acc| == l then Partial(acc, Ok(o))
    else
      var r := Des(dec, d.elem, Zero(d.elem), o);
      if r.res.Err? then Partial(acc, r.res)
      else SliceLoop(dec, d, l, acc + [r.dst], r.res.value)
  }

  /** The `reflect.Array` case. */
  function DesArray(dec: Decoder, d: Dest, cur: Value, off: nat): (r: Decoded)
    requires d.ArrayD? && Conforms(cur, d)
    ensures Conforms(r.dst, d)
    ensures Valid(dec) && r.res.Ok? ==> off < r.res.value <= |dec.data|
    decreases d, 3
  {
    var data, rd := dec.data, dec.readers;
    if off >= |data| then Decoded(cur, Err(OutOfRange(off)))
    else if IsCodeNil(data[off]) then Decoded(cur, Ok(off + 1))
    else if IsCodeBin(data[off]) then
      match rd.asBin(data, off)
      case Err(e) => Decoded(cur, Err(e))
      case Ok((bs, o)) =>
        assert Valid(dec) ==> Advances(rd.asBin(data, off), data, off);
        SetUints(d, cur, bs, o)
    else if IsCodeString(data[off]) then
      match rd.stringByteLength(data, off)
      case Err(e) => Decoded(cur, Err(e))
      case Ok((l, o)) =>
        assert Valid(dec) ==> Advances(rd.stringByteLength(data, off), data, off);
        if l > d.len then Decoded(cur, Err(CapacityExceeded(d.len, l)))
        else
          match ReadBytes(data, o, l)
          case Err(e) => Decoded(cur, Err(e))
          case Ok((bs, o2)) => SetUints(d, cur, bs, o2)
    else
      match rd.sliceLength(data, off)
      case Err(e) => Decoded(cur, Err(e))
      case Ok((l, o)) =>
        assert Valid(dec) ==> Advances(rd.sliceLength(data, off), data, off);
        if l > d.len then Decoded(cur, Err(CapacityExceeded(d.len, l)))
        else
          // elements are decoded in place, so a failure leaves the earlier ones written
          var p := ArrayLoop(dec, d, l, 0, cur.elems, o);
          Decoded(ArrayV(p.acc), p.res)
  }

  /** The first `|bs|` slots of `elems` replaced by the bytes, the rest kept. */
  function WriteBytes(elems: seq<Value>, bs: Bytes): (r: seq<Value>)
    requires |bs| <= |elems|
    ensures |r| == |elems|
  {
    seq(|elems|, i requires 0 <= i < |elems| => if i < |bs| then UintV(bs[i] as nat) else elems[i])
  }

  /** `rv.Index(i).SetUint(uint64(b))` for each byte `b` at index `i`, which only an array of
      unsigned integers or `uintptr`s accepts and which must not run past the array's end. */
  function SetUints(d: Dest, cur: Value, bs: Bytes, o: nat): (r: Decoded)
    requires d.ArrayD? && Conforms(cur, d)
    ensures Conforms(r.dst, d)
  {
    if |bs| > 0 && !AcceptsUint(d.elem) then Decoded(cur, Err(NotAssignable(KindOf(d.elem))))
    else if |bs| > d.len then Decoded(cur, Err(CapacityExceeded(d.len, |bs|)))
    else Decoded(ArrayV(WriteBytes(cur.elems, bs)), Ok(o))
  }

  /** The array loop from slot `i` on: slot `i` is decoded in place. */
  function ArrayLoop(dec: Decoder, d: Dest, l: nat, i: nat, elems: seq<Value>, o: nat): (p: Partial<seq<Value>>)
    requires d.ArrayD? && i <= l <= d.len && |elems| == d.len
    requires forall j :: 0 <= j < d.len ==> Conforms(elems[j], d.elem)
    ensures |p.acc| == d.len && forall j :: 0 <= j < d.len ==> Conforms(p.acc[j], d.elem)
    ensures Valid(dec) && o <= |dec.data| && p.res.Ok? ==> o <= p.res.value <= |dec.data|
    decreases d, 1, l - i
  {
    if i == l then Partial(elems, Ok(o))
    else
      var r := Des(dec, d.elem, elems[i], o);
      var elems' := elems[i := r.dst];
      if r.res.Err? then Partial(elems', r.res)
      else ArrayLoop(dec, d, l, i + 1, elems', r.res.value)
  }

  /** The `reflect.Map` case. */
  function DesMap(dec: Decoder, d: Dest, cur: Value, off: nat): (r: Decoded)
    requires d.MapD? && Conforms(cur, d)
    ensures Conforms(r.dst, d)
    ensures Valid(dec) && r.res.Ok? ==> off < r.res.value <= |dec.data|
    decreases d, 3
  {
    var data := dec.data;
    if off >= |data| then Decoded(cur, Err(OutOfRange(off)))
    else if IsCodeNil(data[off]) then Decoded(cur, Ok(off + 1))
    else
      match MapLength(data, off, MapKind)
      case Err(e) => Decoded(cur, Err(e))
      case Ok((l, o)) =>
        var f := FixedMap(dec, d, cur, o, l);
        if f.res.Err? then Decoded(f.dst, Err(f.res.error))
        else if f.res.value.1 then Decoded(f.dst, Ok(f.res.value.0))
        else
          // a nil map is replaced by an empty one; an existing map is added to
          var p := MapLoop(dec, d, l, 0, cur.entries.GetOr(map[]), o);
          Decoded(MapV(Some(p.acc)), p.res)
  }

  /** The generic map loop from pair `i` on: a key, then a value, each decoded into a fresh
      zero value, then stored (replacing any earlier value under an equal key). */
  function MapLoop(dec: Decoder, d: Dest, l: nat, i: nat, m: map<Value, Value>, o: nat): (p: Partial<map<Value, Value>>)
    requires d.MapD? && i <= l
    requires EntriesConform(m, d.key, d.val)
    ensures EntriesConform(p.acc, d.key, d.val)
    ensures Valid(dec) && o <= |dec.data| && p.res.Ok? ==> o <= p.res.value <= |dec.data|
    decreases d, 1, l - i
  {
    if i == l then Partial(m, Ok(o))
    else
      var k := Des(dec, d.key, Zero(d.key), o);
      if k.res.Err? then Partial(m, k.res)
      else
        var v := Des(dec, d.val, Zero(d.val), k.res.value);
        if v.res.Err? then Partial(m, v.res)
        else MapLoop(dec, d, l, i + 1, m[k.dst := v.dst], v.res.value)
  }

  /** The extension coder consulted first, from index `i` on, that claims the position `off`. */
  function FirstClaim(cs: seq<ExtCoder>, data: Bytes, off: nat, i: nat): (r: Option<nat>)
    requires i <= |cs|
    ensures r.Some? ==> i <= r.value < |cs| && cs[r.value].isType(data, off)
    ensures r.Some? ==> forall j :: i <= j < r.value ==> !cs[j].isType(data, off)
    ensures r.None? ==> forall j :: i <= j < |cs| ==> !cs[j].isType(data, off)
    decreases |cs| - i
  {
    if i == |cs| then None
    else if cs[i].isType(data, off) then Some(i)
    else FirstClaim(cs, data, off, i + 1)
  }

  /** The `reflect.Struct` case: an extension coder, else positional or named field decoding
      as the decoder's flag says. */
  function DesStruct(dec: Decoder, d: Dest, cur: Value, off: nat): (r: Decoded)
    requires d.StructD? && Conforms(cur, d)
    ensures Conforms(r.dst, d)
    ensures Valid(dec) && r.res.Ok? ==> off < r.res.value <= |dec.data|
    decreases d, 3
  {
    var data, rd := dec.data, dec.readers;
    match FirstClaim(dec.extCoders, data, off, 0)
    case Some(i) =>
      (match dec.extCoders[i].asValue(data, off)
       case Err(e) => Decoded(cur, Err(e))
       case Ok((v, o)) =>
         assert Valid(dec) ==> Advances(dec.extCoders[i].asValue(data, off), data, off);
         if Conforms(v, d) then Decoded(v, Ok(o)) else Decoded(cur, Err(NotAssignable(StructKind))))
    case None =>
      if dec.asArray then StructFromArray(dec, d, cur, off) else StructFromMap(dec, d, cur, off)
  }

  /** `setStructFromArray`: an array header, then one wire element per field in declaration
      order; wire elements past the last field are skipped. */
  function StructFromArray(dec: Decoder, d: Dest, cur: Value, off: nat): (r: Decoded)
    requires d.StructD? && Conforms(cur, d)
    ensures Conforms(r.dst, d)
    ensures Valid(dec) && r.res.Ok? ==> off < r.res.value <= |dec.data|
    decreases d, 2
  {
    var data, rd := dec.data, dec.readers;
    match rd.sliceLength(data, off)
    case Err(e) => Decoded(cur, Err(e))
    case Ok((l, o)) =>
      assert Valid(dec) ==> Advances(rd.sliceLength(data, off), data, off);
      var n := if l <= |d.fields| then l else |d.fields|;
      var p := PositionalLoop(dec, d, n, 0, cur.fields, o);
      if p.res.Err? then Decoded(StructV(p.acc), p.res)
      else Decoded(StructV(p.acc), SkipValues(dec, l - n, p.res.value))
  }

  /** `n` wire values skipped with `jumpOffset`, one after the other. */
  function SkipValues(dec: Decoder, n: nat, o: nat): (r: Result<nat>)
    ensures Valid(dec) && o <= |dec.data| && r.Ok? ==> o <= r.value <= |dec.data|
    ensures Valid(dec) && n > 0 && r.Ok? ==> o < r.value
    decreases n
  {
    if n == 0 then Ok(o)
    else
      match dec.readers.jumpOffset(dec.data, o)
      case Err(e) => Err(e)
      case Ok(o1) => SkipValues(dec, n - 1, o1)
  }

  /** `setStructFromMap`: a map header, then name/value pairs. */
  function StructFromMap(dec: Decoder, d: Dest, cur: Value, off: nat): (r: Decoded)
    requires d.StructD? && Conforms(cur, d)
    ensures Conforms(r.dst, d)
    ensures Valid(dec) && r.res.Ok? ==> off < r.res.value <= |dec.data|
    decreases d, 2
  {
    match MapLength(dec.data, off, StructKind)
    case Err(e) => Decoded(cur, Err(e))
    case Ok((l, o)) =>
      var p := NamedLoop(dec, d, l, 0, cur.fields, o);
      Decoded(StructV(p.acc), p.res)
  }

  /** Positional field decoding from field `i` on: wire element `i` goes to field `i`. */
  function PositionalLoop(dec: Decoder, d: Dest, l: nat, i: nat, fields: seq<Value>, o: nat): (p: Partial<seq<Value>>)
    requires d.StructD? && i <= l <= |d.fields| && |fields| == |d.fields|
    requires forall j :: 0 <= j < |fields| ==> Conforms(fields[j], d.fields[j].dest)
    ensures |p.acc| == |d.fields| && forall j :: 0 <= j < |fields| ==> Conforms(p.acc[j], d.fields[j].dest)
    ensures Valid(dec) && o <= |dec.data| && p.res.Ok? ==> o <= p.res.value <= |dec.data|
    decreases d, 1, l - i
  {
    if i == l then Partial(fields, Ok(o))
    else
      var r := Des(dec, d.fields[i].dest, fields[i], o);
      var fields' := fields[i := r.dst];
      if r.res.Err? then Partial(fields', r.res)
      else PositionalLoop(dec, d, l, i + 1, fields', r.res.value)
  }

  /** The first field, from index `j` on, whose wire name is `name`. */
  function FieldIndex(fs: seq<Field>, name: Bytes, j: nat): (r: Option<nat>)
    requires j <= |fs|
    ensures r.Some? ==> j <= r.value < |fs| && fs[r.value].name == name
    ensures r.Some? ==> forall k :: j <= k < r.value ==> fs[k].name != name
    ensures r.None? ==> forall k :: j <= k < |fs| ==> fs[k].name != name
    decreases |fs| - j
  {
    if j == |fs| then None
    else if fs[j].name == name then Some(j)
    else FieldIndex(fs, name, j + 1)
  }

  /** Named field decoding from pair `i` on: a string key, then the value, decoded into the
      field of that name or skipped when there is none. */
  function NamedLoop(dec: Decoder, d: Dest, l: nat, i: nat, fields: seq<Value>, o: nat): (p: Partial<seq<Value>>)
    requires d.StructD? && i <= l && |fields| == |d.fields|
    requires forall j :: 0 <= j < |fields| ==> Conforms(fields[j], d.fields[j].dest)
    ensures |p.acc| == |d.fields| && forall j :: 0 <= j < |fields| ==> Conforms(p.acc[j], d.fields[j].dest)
    ensures Valid(dec) && o <= |dec.data| && p.res.Ok? ==> o <= p.res.value <= |dec.data|
    decreases d, 1, l - i
  {
    if i == l then Partial(fields, Ok(o))
    else
      match dec.readers.asString(dec.data, o)
      case Err(e) => Partial(fields, Err(e))
      case Ok((name, o1)) =>
        assert Valid(dec) ==> Advances(dec.readers.asString(dec.data, o), dec.data, o);
        match FieldIndex(d.fields, name, 0)
        case Some(j) =>
          var r := Des(dec, d.fields[j].dest, fields[j], o1);
          var fields' := fields[j := r.dst];
          if r.res.Err? then Partial(fields', r.res)
          else NamedLoop(dec, d, l, i + 1, fields', r.res.value)
        case None =>
          match dec.readers.jumpOffset(dec.data, o1)
          case Err(e) => Partial(fields, Err(e))
          case Ok(o2) => NamedLoop(dec, d, l, i + 1, fields, o2)
  }
}
