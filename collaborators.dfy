/** The decoder's state and the helpers it calls that live elsewhere in the package
    (the scalar readers, the length-header readers for strings and arrays, the dynamic decoder,
    the value skipper and the extension coders). Each helper is a function value supplied by
    the caller; `Valid` is the only thing the decoder relies on: a helper that succeeds has
    consumed at least one byte and has not gone past the end of the buffer. */
module Collaborators {
  import opened Types

  datatype Readers = Readers(
    asInt: (Bytes, nat, Width) -> Result<(int, nat)>,
    asUint: (Bytes, nat, Width) -> Result<(nat, nat)>,
    asFloat32: (Bytes, nat) -> Result<(Float, nat)>,
    asFloat64: (Bytes, nat) -> Result<(Float, nat)>,
    asString: (Bytes, nat) -> Result<(Bytes, nat)>,
    asBool: (Bytes, nat) -> Result<(bool, nat)>,
    asBin: (Bytes, nat) -> Result<(Bytes, nat)>,
    stringByteLength: (Bytes, nat) -> Result<(nat, nat)>,
    sliceLength: (Bytes, nat) -> Result<(nat, nat)>,
    asInterface: (Bytes, nat) -> Result<(Option<Value>, nat)>,
    jumpOffset: (Bytes, nat) -> Result<nat>)

  /** A pluggable coder for values such as timestamps: `isType` claims a wire position and
      `asValue` decodes the value found there. */
  datatype ExtCoder = ExtCoder(
    isType: (Bytes, nat) -> bool,
    asValue: (Bytes, nat) -> Result<(Value, nat)>)

  /** The `decoder` struct: the buffer, the struct convention flag, and the collaborators.
      The extension coders are consulted in list order. */
  datatype Decoder = Decoder(data: Bytes, asArray: bool, readers: Readers, extCoders: seq<ExtCoder>)

  /** A helper's result, when it is a success, ends after `off` and within `data`. */
  ghost predicate Advances<T>(r: Result<(T, nat)>, data: Bytes, off: nat) {
    r.Ok? ==> off < r.value.1 <= |data|
  }

  ghost predicate ValidReaders(rd: Readers) {
    && (forall data, off, w :: Advances(rd.asInt(data, off, w), data, off))
    && (forall data, off, w :: Advances(rd.asUint(data, off, w), data, off))
    && (forall data, off :: Advances(rd.asFloat32(data, off), data, off))
    && (forall data, off :: Advances(rd.asFloat64(data, off), data, off))
    && (forall data, off :: Advances(rd.asString(data, off), data, off))
    && (forall data, off :: Advances(rd.asBool(data, off), data, off))
    && (forall data, off :: Advances(rd.asBin(data, off), data, off))
    && (forall data, off :: Advances(rd.stringByteLength(data, off), data, off))
    && (forall data, off :: Advances(rd.sliceLength(data, off), data, off))
    && (forall data, off :: Advances(rd.asInterface(data, off), data, off))
    && (forall data: Bytes, off: nat :: rd.jumpOffset(data, off).Ok? ==> off < rd.jumpOffset(data, off).value <= |data|)
  }

  ghost predicate ValidExt(c: ExtCoder) {
    forall data, off :: Advances(c.asValue(data, off), data, off)
  }

  ghost predicate Valid(dec: Decoder) {
    ValidReaders(dec.readers) && forall i :: 0 <= i < |dec.extCoders| ==> ValidExt(dec.extCoders[i])
  }
}
