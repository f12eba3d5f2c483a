/** The decoder as the original runs it: `Decode` checks the holder and that one value fills
    the buffer; `Deserialize` and the per-kind methods write the destination step by step,
    threading the offset through their loops. Each method is proved to leave exactly what the
    corresponding function of `Engine` describes. */
module Decoding {
  import opened Types
  import opened Wire
  import opened Collaborators
  import opened MapFormat
  import opened Engine

  /** `Decode(data, holder, asArray)`: the holder must be a pointer; its target is decoded
      from offset 0 and the value must end exactly at the end of the buffer. */
  method Decode(dec: Decoder, holderType: Dest, holder: Value) returns (h: Value, err: Option<Error>)
    requires Conforms(holder, holderType)
    ensures !holderType.PtrD? ==> h == holder && err == Some(NotPointer)
    ensures holderType.PtrD? && holder.target.None? ==>
              h == holder
              && err == Some(if |dec.data| == 0 then OutOfRange(0) else InvalidCode(dec.data[0], InvalidKind))
    ensures holderType.PtrD? && holder.target.Some? ==>
              var r := Des(dec, holderType.target, holder.target.value, 0);
              && h == PtrV(Some(r.dst))
              && (r.res.Err? ==> err == Some(r.res.error))
              && (r.res.Ok? && r.res.value != |dec.data| ==> err == Some(SizeMismatch(|dec.data|, r.res.value)))
    ensures err.None? <==>
              holderType.PtrD? && holder.target.Some?
              && Des(dec, holderType.target, holder.target.value, 0).res == Ok(|dec.data|)
  {
    if !holderType.PtrD? {
      return holder, Some(NotPointer);
    }
    if holder.target.None? {
      // the target of a nil pointer has the invalid kind, which `deserialize` rejects
      if |dec.data| == 0 {
        return holder, Some(OutOfRange(0));
      }
      return holder, Some(ErrorTemplate(dec.data[0], InvalidKind));
    }
    var target, res := Deserialize(dec, holderType.target, holder.target.value, 0);
    h := PtrV(Some(target));
    if res.Err? {
      return h, Some(res.error);
    }
    var last := res.value;
    if |dec.data| != last {
      return h, Some(SizeMismatch(|dec.data|, last));
    }
    return h, None;
  }

  /** `deserialize(rv, offset)`. */
  method Deserialize(dec: Decoder, d: Dest, cur: Value, off: nat) returns (dst: Value, res: Result<nat>)
    requires Conforms(cur, d)
    ensures Decoded(dst, res) == Des(dec, d, cur, off)
    decreases d, 4
  {
    var data, rd := dec.data, dec.readers;
    match d {
      case IntD(w) =>
        var r := rd.asInt(data, off, w);
        if r.Err? {
          return cur, Err(r.error);
        }
        return IntV(r.value.0), Ok(r.value.1);
      case UintD(w) =>
        var r := rd.asUint(data, off, w);
        if r.Err? {
          return cur, Err(r.error);
        }
        return UintV(r.value.0), Ok(r.value.1);
      case Float32D =>
        var r := rd.asFloat32(data, off);
        if r.Err? {
          return cur, Err(r.error);
        }
        return FloatV(r.value.0), Ok(r.value.1);
      case Float64D =>
        var r := rd.asFloat64(data, off);
        if r.Err? {
          return cur, Err(r.error);
        }
        return FloatV(r.value.0), Ok(r.value.1);
      case StrD =>
        var r := rd.asString(data, off);
        if r.Err? {
          return cur, Err(r.error);
        }
        return StrV(r.value.0), Ok(r.value.1);
      case BoolD =>
        var r := rd.asBool(data, off);
        if r.Err? {
          return cur, Err(r.error);
        }
        return BoolV(r.value.0), Ok(r.value.1);
      case SliceD(_) =>
        dst, res := DeserializeSlice(dec, d, cur, off);
      case ArrayD(_, _) =>
        dst, res := DeserializeArray(dec, d, cur, off);
      case MapD(_, _) =>
        dst, res := DeserializeMap(dec, d, cur, off);
      case StructD(_) =>
        dst, res := DeserializeStruct(dec, d, cur, off);
      case PtrD(t) =>
        if off >= |data| {
          return cur, Err(OutOfRange(off));
        }
        if IsCodeNil(data[off]) {
          return cur, Ok(off + 1);
        }
        var target := cur.target;
        if target.None? {
          target := Some(Zero(t));
        }
        var v;
        v, res := Deserialize(dec, t, target.value, off);
        return PtrV(Some(v)), res;
      case IfaceD =>
        var r := rd.asInterface(data, off);
        if r.Err? {
          return cur, Err(r.error);
        }
        if r.value.0.Some? {
          return IfaceV(r.value.0), Ok(r.value.1);
        }
        return cur, Ok(r.value.1);
      case UintptrD | OtherD(_) =>
        if off >= |data| {
          return cur, Err(OutOfRange(off));
        }
        return cur, Err(ErrorTemplate(data[off], KindOf(d)));
    }
  }

  /** The `reflect.Slice` case of `deserialize`. */
  method DeserializeSlice(dec: Decoder, d: Dest, cur: Value, off: nat) returns (dst: Value, res: Result<nat>)
    requires d.SliceD? && Conforms(cur, d)
    ensures Decoded(dst, res) == DesSlice(dec, d, cur, off)
    decreases d, 3
  {
    var data, rd := dec.data, dec.readers;
    if off >= |data| {
      return cur, Err(OutOfRange(off));
    }
    if IsCodeNil(data[off]) {
      return cur, Ok(off + 1);
    }
    if IsCodeBin(data[off]) {
      var bin := rd.asBin(data, off);
      if bin.Err? {
        return cur, Err(bin.error);
      }
      var r := SetBytes(d, cur, bin.value.0, bin.value.1);
      return r.dst, r.res;
    }
    if IsCodeString(data[off]) {
      var size := rd.stringByteLength(data, off);
      if size.Err? {
        return cur, Err(size.error);
      }
      var bytes := ReadBytes(data, size.value.1, size.value.0);
      if bytes.Err? {
        return cur, Err(bytes.error);
      }
      var r := SetBytes(d, cur, bytes.value.0, bytes.value.1);
      return r.dst, r.res;
    }
    var header := rd.sliceLength(data, off);
    if header.Err? {
      return cur, Err(header.error);
    }
    var l, o := header.value.0, header.value.1;
    var elems := [];
    var i := 0;
    while i < l
      invariant i == |elems| <= l
      invariant forall j :: 0 <= j < i ==> Conforms(elems[j], d.elem)
      invariant SliceLoop(dec, d, l, elems, o) == SliceLoop(dec, d, l, [], header.value.1)
    {
      var v, r := Deserialize(dec, d.elem, Zero(d.elem), o);
      if r.Err? {
        return cur, r;
      }
      elems := elems + [v];
      o := r.value;
      i := i + 1;
    }
    return SliceV(elems), Ok(o);
  }

  /** The `reflect.Array` case of `deserialize`. */
  method DeserializeArray(dec: Decoder, d: Dest, cur: Value, off: nat) returns (dst: Value, res: Result<nat>)
    requires d.ArrayD? && Conforms(cur, d)
    ensures Decoded(dst, res) == DesArray(dec, d, cur, off)
    decreases d, 3
  {
    var data, rd := dec.data, dec.readers;
    if off >= |data| {
      return cur, Err(OutOfRange(off));
    }
    if IsCodeNil(data[off]) {
      return cur, Ok(off + 1);
    }
    if IsCodeBin(data[off]) {
      var bin := rd.asBin(data, off);
      if bin.Err? {
        return cur, Err(bin.error);
      }
      dst, res := StoreBytes(d, cur, bin.value.0, bin.value.1);
      return;
    }
    if IsCodeString(data[off]) {
      var size := rd.stringByteLength(data, off);
      if size.Err? {
        return cur, Err(size.error);
      }
      if size.value.0 > d.len {
        return cur, Err(CapacityExceeded(d.len, size.value.0));
      }
      var bytes := ReadBytes(data, size.value.1, size.value.0);
      if bytes.Err? {
        return cur, Err(bytes.error);
      }
      dst, res := StoreBytes(d, cur, bytes.value.0, bytes.value.1);
      return;
    }
    var header := rd.sliceLength(data, off);
    if header.Err? {
      return cur, Err(header.error);
    }
    var l, o := header.value.0, header.value.1;
    if l > d.len {
      return cur, Err(CapacityExceeded(d.len, l));
    }
    var elems := cur.elems;
    var i := 0;
    while i < l
      invariant i <= l && |elems| == d.len
      invariant forall j :: 0 <= j < d.len ==> Conforms(elems[j], d.elem)
      invariant ArrayLoop(dec, d, l, i, elems, o) == ArrayLoop(dec, d, l, 0, cur.elems, header.value.1)
    {
      var v, r := Deserialize(dec, d.elem, elems[i], o);
      elems := elems[i := v];
      if r.Err? {
        return ArrayV(elems), r;
      }
      o := r.value;
      i := i + 1;
    }
    return ArrayV(elems), Ok(o);
  }

  /** The byte-copy loop of the bin and string paths into an array: slot `i` takes byte `i`. */
  method StoreBytes(d: Dest, cur: Value, bs: Bytes, o: nat) returns (dst: Value, res: Result<nat>)
    requires d.ArrayD? && Conforms(cur, d)
    ensures Decoded(dst, res) == SetUints(d, cur, bs, o)
  {
    if |bs| > 0 && !AcceptsUint(d.elem) {
      return cur, Err(NotAssignable(KindOf(d.elem)));
    }
    if |bs| > d.len {
      return cur, Err(CapacityExceeded(d.len, |bs|));
    }
    var elems := cur.elems;
    for i := 0 to |bs|
      invariant |elems| == |cur.elems|
      invariant forall j :: 0 <= j < |elems| ==> elems[j] == if j < i then UintV(bs[j] as nat) else cur.elems[j]
    {
      elems := elems[i := UintV(bs[i] as nat)];
    }
    return ArrayV(elems), Ok(o);
  }

  /** The `reflect.Map` case of `deserialize`. */
  method DeserializeMap(dec: Decoder, d: Dest, cur: Value, off: nat) returns (dst: Value, res: Result<nat>)
    requires d.MapD? && Conforms(cur, d)
    ensures Decoded(dst, res) == DesMap(dec, d, cur, off)
    decreases d, 3
  {
    var data := dec.data;
    if off >= |data| {
      return cur, Err(OutOfRange(off));
    }
    if IsCodeNil(data[off]) {
      return cur, Ok(off + 1);
    }
    var header := MapLength(data, off, MapKind);
    if header.Err? {
      return cur, Err(header.error);
    }
    var l, o := header.value.0, header.value.1;
    var fixed, found := AsFixedMap(dec, d, cur, o, l);
    if found.Err? {
      return fixed, Err(found.error);
    }
    if found.value.1 {
      return fixed, Ok(found.value.0);
    }
    var m := if cur.entries.None? then map[] else cur.entries.value;
    var i := 0;
    while i < l
      invariant i <= l
      invariant EntriesConform(m, d.key, d.val)
      invariant MapLoop(dec, d, l, i, m, o) == MapLoop(dec, d, l, 0, cur.entries.GetOr(map[]), header.value.1)
    {
      var k, rk := Deserialize(dec, d.key, Zero(d.key), o);
      if rk.Err? {
        return MapV(Some(m)), rk;
      }
      var v, rv := Deserialize(dec, d.val, Zero(d.val), rk.value);
      if rv.Err? {
        return MapV(Some(m)), rv;
      }
      m := m[k := v];
      o := rv.value;
      i := i + 1;
    }
    return MapV(Some(m)), Ok(o);
  }

  /** The `reflect.Struct` case of `deserialize`. */
  method DeserializeStruct(dec: Decoder, d: Dest, cur: Value, off: nat) returns (dst: Value, res: Result<nat>)
    requires d.StructD? && Conforms(cur, d)
    ensures Decoded(dst, res) == DesStruct(dec, d, cur, off)
    decreases d, 3
  {
    var data, coders := dec.data, dec.extCoders;
    var i := 0;
    while i < |coders|
      invariant i <= |coders|
      invariant FirstClaim(coders, data, off, i) == FirstClaim(coders, data, off, 0)
    {
      if coders[i].isType(data, off) {
        var r := coders[i].asValue(data, off);
        if r.Err? {
          return cur, Err(r.error);
        }
        if !Conforms(r.value.0, d) {
          return cur, Err(NotAssignable(StructKind));
        }
        return r.value.0, Ok(r.value.1);
      }
      i := i + 1;
    }
    if dec.asArray {
      dst, res := SetStructFromArray(dec, d, cur, off);
    } else {
      dst, res := SetStructFromMap(dec, d, cur, off);
    }
  }

  /** `setStructFromArray`. */
  method SetStructFromArray(dec: Decoder, d: Dest, cur: Value, off: nat) returns (dst: Value, res: Result<nat>)
    requires d.StructD? && Conforms(cur, d)
    ensures Decoded(dst, res) == StructFromArray(dec, d, cur, off)
    decreases d, 2
  {
    var header := dec.readers.sliceLength(dec.data, off);
    if header.Err? {
      return cur, Err(header.error);
    }
    var l, o := header.value.0, header.value.1;
    var n := if l <= |d.fields| then l else |d.fields|;
    var fields := cur.fields;
    var i := 0;
    while i < n
      invariant i <= n && |fields| == |d.fields|
      invariant forall j :: 0 <= j < |fields| ==> Conforms(fields[j], d.fields[j].dest)
      invariant PositionalLoop(dec, d, n, i, fields, o) == PositionalLoop(dec, d, n, 0, cur.fields, header.value.1)
    {
      var v, r := Deserialize(dec, d.fields[i].dest, fields[i], o);
      fields := fields[i := v];
      if r.Err? {
        return StructV(fields), r;
      }
      o := r.value;
      i := i + 1;
    }
    res := Skip(dec, l - n, o);
    return StructV(fields), res;
  }

  /** The elements of a positional struct past its last field, skipped with `jumpOffset`. */
  method Skip(dec: Decoder, n: nat, o: nat) returns (res: Result<nat>)
    ensures res == SkipValues(dec, n, o)
  {
    var off := o;
    var k := 0;
    while k < n
      invariant k <= n
      invariant SkipValues(dec, n - k, off) == SkipValues(dec, n, o)
    {
      var j := dec.readers.jumpOffset(dec.data, off);
      if j.Err? {
        return Err(j.error);
      }
      off := j.value;
      k := k + 1;
    }
    return Ok(off);
  }

  /** `setStructFromMap`. */
  method SetStructFromMap(dec: Decoder, d: Dest, cur: Value, off: nat) returns (dst: Value, res: Result<nat>)
    requires d.StructD? && Conforms(cur, d)
    ensures Decoded(dst, res) == StructFromMap(dec, d, cur, off)
    decreases d, 2
  {
    var header := MapLength(dec.data, off, StructKind);
    if header.Err? {
      return cur, Err(header.error);
    }
    var l, o := header.value.0, header.value.1;
    var fields := cur.fields;
    var i := 0;
    while i < l
      invariant i <= l && |fields| == |d.fields|
      invariant forall j :: 0 <= j < |fields| ==> Conforms(fields[j], d.fields[j].dest)
      invariant NamedLoop(dec, d, l, i, fields, o) == NamedLoop(dec, d, l, 0, cur.fields, header.value.1)
    {
      var key := dec.readers.asString(dec.data, o);
      if key.Err? {
        return StructV(fields), Err(key.error);
      }
      var index := FieldIndex(d.fields, key.value.0, 0);
      if index.Some? {
        var j := index.value;
        var v, r := Deserialize(dec, d.fields[j].dest, fields[j], key.value.1);
        fields := fields[j := v];
        if r.Err? {
          return StructV(fields), r;
        }
        o := r.value;
      } else {
        var skip := dec.readers.jumpOffset(dec.data, key.value.1);
        if skip.Err? {
          return StructV(fields), Err(skip.error);
        }
        o := skip.value;
      }
      i := i + 1;
    }
    return StructV(fields), Ok(o);
  }
}
