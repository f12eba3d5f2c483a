/** Leading-byte constants of the MessagePack format, the classification predicates the
    dispatcher tests, and the fixed-width readers over the input buffer. Reading past the end of
    the buffer is a runtime panic in the original; here it is the error `OutOfRange`. */
module Wire {
  import opened Types

  const Nil: byte := 0xc0
  const FixMap: byte := 0x80
  const Map16: byte := 0xde
  const Map32: byte := 0xdf
  const Bin8: byte := 0xc4
  const Bin16: byte := 0xc5
  const Bin32: byte := 0xc6
  const FixStr: byte := 0xa0
  const Str8: byte := 0xd9
  const Str16: byte := 0xda
  const Str32: byte := 0xdb

  /** `isCodeNil`. The nil code is neither a bin nor a string code, so the container cases may
      test it first. */
  predicate IsCodeNil(code: byte): (b: bool)
    ensures b ==> !IsCodeBin(code) && !IsCodeString(code)
  {
    code == Nil
  }

  /** `isCodeBin`: the three codes form one contiguous range, disjoint from the string codes. */
  predicate IsCodeBin(code: byte): (b: bool)
    ensures b <==> Bin8 <= code <= Bin32
    ensures b ==> !IsCodeString(code)
  {
    code == Bin8 || code == Bin16 || code == Bin32
  }

  /** `isCodeString`: a fixstr code has the top three bits 101; str8, str16 and str32 are a
      contiguous range. */
  predicate IsCodeString(code: byte): (b: bool)
    ensures b <==> code / 0x20 == 0x5 || Str8 <= code <= Str32
  {
    (FixStr <= code <= FixStr + 0x1f) || code == Str8 || code == Str16 || code == Str32
  }

  /** `readSize1`: the byte at `off`, which is the one-byte read of `ReadBytes`. */
  function ReadSize1(data: Bytes, off: nat): (r: Result<(byte, nat)>)
    ensures r.Ok? <==> ReadBytes(data, off, 1).Ok?
    ensures r.Ok? ==> [r.value.0] == ReadBytes(data, off, 1).value.0 && r.value.1 == ReadBytes(data, off, 1).value.1
    ensures r.Err? ==> r.error == OutOfRange(off)
  {
    if off < |data| then Ok((data[off], off + 1)) else Err(OutOfRange(off))
  }

  /** `readSize2`, `readSize4` and `asStringByte`: the next `n` bytes. */
  function ReadBytes(data: Bytes, off: nat, n: nat): (r: Result<(Bytes, nat)>)
    ensures r.Ok? ==> |r.value.0| == n && r.value.1 == off + n <= |data|
  {
    if off + n <= |data| then Ok((data[off..off + n], off + n)) else Err(OutOfRange(off))
  }

  /** `binary.BigEndian.Uint16`. */
  function Uint16(bs: Bytes): nat
    requires |bs| == 2
  {
    bs[0] as nat * 0x100 + bs[1] as nat
  }

  /** `binary.BigEndian.Uint32`. */
  function Uint32(bs: Bytes): nat
    requires |bs| == 4
  {
    bs[0] as nat * 0x100_0000 + bs[1] as nat * 0x1_0000 + bs[2] as nat * 0x100 + bs[3] as nat
  }

  /** The two big-endian bytes of `x`, as an encoder writes a 16-bit length. */
  function ToUint16(x: nat): (bs: Bytes)
    requires x < 0x1_0000
    ensures |bs| == 2
  {
    [(x / 0x100) as byte, (x % 0x100) as byte]
  }

  /** The four big-endian bytes of `x`, as an encoder writes a 32-bit length. */
  function ToUint32(x: nat): (bs: Bytes)
    requires x < 0x1_0000_0000
    ensures |bs| == 4
  {
    var q1 := x / 0x100;
    var q2 := q1 / 0x100;
    [(q2 / 0x100) as byte, (q2 % 0x100) as byte, (q1 % 0x100) as byte, (x % 0x100) as byte]
  }

  /** `errorTemplate`: the error for a leading byte that the destination kind cannot take. */
  function ErrorTemplate(code: byte, k: Kind): Error {
    InvalidCode(code, k)
  }

  /** Reading back a 16-bit length that an encoder wrote gives the length. */
  lemma Uint16RoundTrip(x: nat)
    requires x < 0x1_0000
    ensures Uint16(ToUint16(x)) == x
  {
  }

  /** Reading back a 32-bit length that an encoder wrote gives the length. */
  lemma Uint32RoundTrip(x: nat)
    requires x < 0x1_0000_0000
    ensures Uint32(ToUint32(x)) == x
  {
  }
}
