/** The values the decoder works on: the wire bytes, the destination type (what Go's
    reflection reports about the value being decoded into), the destination's contents,
    and the decoder's errors. */
module Types {

  /** An octet of the wire buffer, Go's `byte`. */
  newtype byte = b: int | 0 <= b < 0x100
  type Bytes = seq<byte>

  /** An IEEE 754 binary64 bit pattern, never interpreted by the decoder. */
  type Float = bv64

  datatype Option<+T> = None | Some(value: T) {
    function GetOr(default: T): T {
      match this
      case Some(v) => v
      case None => default
    }
  }

  datatype Result<+T> = Ok(value: T) | Err(error: Error)

  /** The width of a Go integer kind: `int`/`uint` (platform width), then 8 to 64 bits. */
  datatype Width = Platform | W8 | W16 | W32 | W64

  /** Go kinds that `deserialize` has no case for and whose values the decoder never touches. */
  datatype Unsupported = Complex64 | Complex128 | Chan | Func | UnsafePointer

  /** `reflect.Kind`, as carried in error values. */
  datatype Kind =
    | InvalidKind
    | BoolKind | IntKind(iw: Width) | UintKind(uw: Width) | Float32Kind | Float64Kind | StringKind
    | SliceKind | ArrayKind | MapKind | StructKind | PtrKind | InterfaceKind | UintptrKind
    | OtherKind(other: Unsupported)

  /** A struct field the decoder may fill: its wire name and its type. */
  datatype Field = Field(name: Bytes, dest: Dest)

  /** The static type of a destination. */
  datatype Dest =
    | IntD(iw: Width)
    | UintD(uw: Width)
    | Float32D
    | Float64D
    | StrD
    | BoolD
    | SliceD(elem: Dest)
    | ArrayD(elem: Dest, len: nat)
    | MapD(key: Dest, val: Dest)
    | StructD(fields: seq<Field>)
    | PtrD(target: Dest)
    | IfaceD                   // the empty interface `interface{}`
    | UintptrD                 // `deserialize` has no case for it, but `SetUint` accepts it
    | OtherD(other: Unsupported)

  /** The contents of a destination. A nil map, a nil pointer and a nil interface hold `None`. */
  datatype Value =
    | IntV(i: int)
    | UintV(u: nat)
    | FloatV(bits: Float)
    | StrV(s: Bytes)
    | BoolV(b: bool)
    | SliceV(elems: seq<Value>)
    | ArrayV(elems: seq<Value>)
    | MapV(entries: Option<map<Value, Value>>)
    | StructV(fields: seq<Value>)
    | PtrV(target: Option<Value>)
    | IfaceV(held: Option<Value>)
    | OtherV(other: Unsupported)

  datatype Error =
    | NotPointer                            // the holder passed to Decode is not a pointer
    | SizeMismatch(size: nat, last: nat)    // the top-level value did not end at the end of the buffer
    | InvalidCode(code: byte, kind: Kind)   // leading byte not acceptable for the destination kind
    | CapacityExceeded(len: nat, wire: nat) // a Go array shorter than the wire element count
    | OutOfRange(offset: nat)               // a read past the end of the buffer (a runtime panic in Go)
    | NotAssignable(kind: Kind)             // a reflective store of the wrong type (a runtime panic in Go)

  /** What a decoding step leaves behind: the destination's contents afterwards (written in
      place, so they may be partly updated when the step fails) and the new offset or the error. */
  datatype Decoded = Decoded(dst: Value, res: Result<nat>)

  /** The state a decoding loop stops in: what it has built so far and the offset or error. */
  datatype Partial<T> = Partial(acc: T, res: Result<nat>)

  function KindOf(d: Dest): Kind {
    match d
    case IntD(w) => IntKind(w)
    case UintD(w) => UintKind(w)
    case Float32D => Float32Kind
    case Float64D => Float64Kind
    case StrD => StringKind
    case BoolD => BoolKind
    case SliceD(_) => SliceKind
    case ArrayD(_, _) => ArrayKind
    case MapD(_, _) => MapKind
    case StructD(_) => StructKind
    case PtrD(_) => PtrKind
    case IfaceD => InterfaceKind
    case UintptrD => UintptrKind
    case OtherD(u) => OtherKind(u)
  }

  /** `v` is a value of Go type `d`: the right variant, the declared array length and
      field count, and elements, keys, values and pointees of the right types. */
  predicate Conforms(v: Value, d: Dest)
    decreases d
  {
    match d
    case IntD(_) => v.IntV?
    case UintD(_) => v.UintV?
    case Float32D => v.FloatV?
    case Float64D => v.FloatV?
    case StrD => v.StrV?
    case BoolD => v.BoolV?
    case SliceD(e) =>
      v.SliceV? && forall i :: 0 <= i < |v.elems| ==> Conforms(v.elems[i], e)
    case ArrayD(e, n) =>
      v.ArrayV? && |v.elems| == n && forall i :: 0 <= i < n ==> Conforms(v.elems[i], e)
    case MapD(kd, vd) =>
      v.MapV? && (v.entries.Some? ==> EntriesConform(v.entries.value, kd, vd))
    case StructD(fs) =>
      v.StructV? && |v.fields| == |fs| && forall i :: 0 <= i < |fs| ==> Conforms(v.fields[i], fs[i].dest)
    case PtrD(t) => v.PtrV? && (v.target.Some? ==> Conforms(v.target.value, t))
    case IfaceD => v.IfaceV?
    case UintptrD => v.UintV?
    case OtherD(u) => v == OtherV(u)
  }

  predicate EntriesConform(m: map<Value, Value>, kd: Dest, vd: Dest)
    decreases MapD(kd, vd), 0
  {
    forall k :: k in m ==> Conforms(k, kd) && Conforms(m[k], vd)
  }

  /** The kinds whose `reflect.Value.SetUint` accepts an unsigned integer: `uint`, `uint8` to
      `uint64`, and `uintptr`. */
  predicate AcceptsUint(d: Dest) {
    d.UintD? || d.UintptrD?
  }

  /** The zero value of a type, what `reflect.New(t).Elem()` holds. */
  function Zero(d: Dest): (z: Value)
    ensures Conforms(z, d)
    decreases d
  {
    match d
    case IntD(_) => IntV(0)
    case UintD(_) => UintV(0)
    case Float32D => FloatV(0)
    case Float64D => FloatV(0)
    case StrD => StrV([])
    case BoolD => BoolV(false)
    case SliceD(_) => SliceV([])
    case ArrayD(e, n) => ArrayV(seq(n, _ => Zero(e)))
    case MapD(_, _) => MapV(None)
    case StructD(fs) => StructV(seq(|fs|, i requires 0 <= i < |fs| => Zero(fs[i].dest)))
    case PtrD(_) => PtrV(None)
    case IfaceD => IfaceV(None)
    case UintptrD => UintV(0)
    case OtherD(u) => OtherV(u)
  }
}
