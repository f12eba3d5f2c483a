# Type-directed MessagePack decoder, modelled in Dafny

This project models the core of the reflection-based MessagePack decoder of the Go package
`msgpack` (`internal/decoding`):

- `Decode` decodes one MessagePack value into the value a holder pointer points at. It then
  insists that this value ends exactly at the end of the input buffer.
- `deserialize` is the recursive dispatcher. It branches on the Go kind of the destination:
  integers, unsigned integers, floats, strings, booleans, slices, arrays, maps, structs,
  pointers and interfaces.
  - For the container kinds it also branches on the leading byte on the wire: nil, bin,
    string, or an array/map header.
  - It recurses into elements, threads the read offset through, and writes the destination
    in place.
- `mapLength` parses the MessagePack map header family:
  - fixmap 0x80-0x8f, with the count in the low nibble;
  - map16 0xde, with a big-endian 16-bit count;
  - map32 0xdf, with a big-endian 32-bit count.
- `asFixedMap` is a fast path for `map[string]int`.

Go reflection is replaced by two closed datatypes:

- `Types.Dest` is the static type of a destination.
- `Types.Value` is its contents.

A decoding step takes the destination's current contents and returns a `Decoded`: the contents
afterwards and the new offset or the error. The contents are returned even on error, because
the original writes in place. A failing array, map or struct decode can leave some elements
written, and a freshly allocated pointer stays allocated.

The model has three layers:

- **Specification** (`engine.dfy`, the functions in `map.dfy`). `Engine.Des` and one function
  per container kind describe the result. Each element loop is a function that runs the loop
  from a given state to the end.
- **Implementation** (`decoding.dfy`, `MapFormat.AsFixedMap`). Methods with `while`/`for`
  loops follow the original's control flow step by step. Each is proved to produce exactly
  what the specification describes.
- **Properties** (`properties.dfy`, the lemmas in `map.dfy` and `wire.dfy`). These cover the
  promises: what a nil code leaves, element order, which slots, entries and fields are kept,
  how extension coders and the struct convention are chosen, and how the fast path replaces
  where the generic map path merges.

The helpers the decoder calls that live outside `decoding.go` and `map.go` are supplied by the
caller as function values (`Collaborators.Readers`, `Collaborators.ExtCoder`):

- the scalar readers `asInt`, `asUint`, `asFloat32`, `asFloat64`, `asString`, `asBool`, `asBin`;
- the length readers `stringByteLength`, `sliceLength`;
- `asInterface`;
- the value skipper `jumpOffset`;
- the extension coders.

The only assumption made about them is `Collaborators.Valid`: a helper that succeeds has moved
past its starting offset and not past the end of the buffer. Under it, every successful decode
consumes at least one byte and stays within the buffer.

The byte-level helpers are concrete:

- `isCodeNil`, `isCodeBin`, `isCodeString` (MessagePack's leading-byte ranges);
- `readSize1/2/4` and `asStringByte` (`Wire.ReadSize1`, `Wire.ReadBytes`);
- big-endian decoding (`Wire.Uint16`, `Wire.Uint32`).

## Model

| member | source | states |
|---|---|---|
| `Decoding.Decode` | internal/decoding/decoding.go:16-34 | A holder that is not a pointer is refused. A nil pointer is an invalid-code error on the first byte. Otherwise the target is decoded from offset 0, and the call succeeds exactly when that decode succeeds and ends at `len(data)`; a decode ending elsewhere gives a size error carrying the length and the end offset. |
| `Decoding.Deserialize` | internal/decoding/decoding.go:36-309 | The in-place dispatcher leaves exactly the destination and offset/error that `Engine.Des` describes. |
| `Decoding.DeserializeSlice` | internal/decoding/decoding.go:87-141 | The slice case, with its element loop, leaves exactly what `Engine.DesSlice` describes. |
| `Decoding.DeserializeArray` | internal/decoding/decoding.go:143-194 | The array case, with its in-place element loop, leaves exactly what `Engine.DesArray` describes. |
| `Decoding.StoreBytes` | internal/decoding/decoding.go:150-174 | The byte-copy loop of the bin and string paths into an array leaves exactly what `Engine.SetUints` describes. |
| `Decoding.DeserializeMap` | internal/decoding/decoding.go:196-238 | The map case, with the fast path and the key/value loop, leaves exactly what `Engine.DesMap` describes. |
| `Decoding.DeserializeStruct` | internal/decoding/decoding.go:240-275 | The loop over extension coders, then the convention flag, leave exactly what `Engine.DesStruct` describes. |
| `Decoding.SetStructFromArray` | internal/decoding/decoding.go:263-268 | Positional field decoding, with its field loop and its skip loop, leaves exactly what `Engine.StructFromArray` describes. |
| `Decoding.Skip` | internal/decoding/decoding.go:264 | Skipping the elements past the last field gives exactly the offset or error `Engine.SkipValues` describes. |
| `Decoding.SetStructFromMap` | internal/decoding/decoding.go:269-274 | Named field decoding leaves exactly what `Engine.StructFromMap` describes. |
| `Engine.Des` | internal/decoding/decoding.go:36-309 | The destination stays a value of its Go type. With valid helpers, a success ends strictly after the start offset and within the buffer. |
| `Engine.DesSlice` | internal/decoding/decoding.go:87-141 | The slice stays well typed, and a success advances within the buffer. |
| `Engine.SliceLoop` | internal/decoding/decoding.go:128-141 | Decoded elements are well typed. On success there are exactly `l` of them, and the offset does not move backwards or past the buffer. |
| `Engine.DesArray` | internal/decoding/decoding.go:143-194 | The array keeps its length and element type, and a success advances within the buffer. |
| `Engine.SetBytes` | internal/decoding/decoding.go:99 | `rv.SetBytes` succeeds exactly on a slice of `uint8`, at the given offset and with one element per byte; a refusal leaves the slice unchanged. The slice stays well typed. |
| `Engine.SetUints` | internal/decoding/decoding.go:156-158 | Storing bytes into an array keeps it well typed. |
| `Engine.ArrayLoop` | internal/decoding/decoding.go:187-194 | In-place decoding keeps the array's length and element types, and the offset stays within the buffer. |
| `Engine.DesMap` | internal/decoding/decoding.go:196-238 | The map stays well typed, and a success advances within the buffer. |
| `Engine.MapLoop` | internal/decoding/decoding.go:218-238 | Every stored key and value has the map's key and value type, and the offset stays within the buffer. |
| `Engine.FirstClaim` | internal/decoding/decoding.go:252-253 | The coder found claims the position, and no coder before it does. When none is found, no coder claims it. |
| `Engine.DesStruct` | internal/decoding/decoding.go:240-275 | The struct stays well typed: an extension coder's value is stored only if it has the struct's type. A success advances within the buffer. |
| `Engine.StructFromArray` | internal/decoding/decoding.go:263-268 | Positional decoding keeps the struct well typed and advances within the buffer on success. |
| `Engine.SkipValues` | internal/decoding/decoding.go:264 | Skipping with valid helpers moves forward within the buffer, strictly when at least one value is skipped. |
| `Engine.StructFromMap` | internal/decoding/decoding.go:269-274 | Named decoding keeps the struct well typed and advances within the buffer on success. |
| `Engine.PositionalLoop` | internal/decoding/decoding.go:264 | Fields keep their types and the offset stays within the buffer. |
| `Engine.FieldIndex` | internal/decoding/decoding.go:270 | The index found names a field with the wire name, and no earlier field has that name. When none is found, no field has it. |
| `Engine.NamedLoop` | internal/decoding/decoding.go:270 | Fields keep their types and the offset stays within the buffer. |
| `Types.Zero` | internal/decoding/decoding.go:285-286 | The zero value that `reflect.New` provides is a value of the type. |
| `Wire.IsCodeNil` | internal/decoding/decoding.go:89 | The nil code is neither a bin code nor a string code, so testing it first decides nothing the later tests would. |
| `Wire.IsCodeBin` | internal/decoding/decoding.go:94 | The bin codes are exactly the range 0xc4-0xc6, and none of them is a string code. |
| `Wire.IsCodeString` | internal/decoding/decoding.go:103 | The string codes are exactly the fixstr codes (top three bits 101) and the range 0xd9-0xdb. |
| `Wire.ReadSize1` | internal/decoding/map.go:19 | Reading one byte succeeds exactly when the one-byte `ReadBytes` does, with the same byte and end offset; otherwise it is out of range at the offset. |
| `Wire.ReadBytes` | internal/decoding/decoding.go:108 | A successful read returns exactly `n` bytes and ends `n` bytes later, within the buffer. |
| `Wire.Uint16RoundTrip` | internal/decoding/map.go:26 | Big-endian 16-bit decoding inverts the encoder's two length bytes. |
| `Wire.Uint32RoundTrip` | internal/decoding/map.go:29 | Big-endian 32-bit decoding inverts the encoder's four length bytes. |
| `MapFormat.IsFixMap` | internal/decoding/map.go:14-16 | `isFixMap(v)` holds iff the high nibble of `v` is 0x8. |
| `MapFormat.FixMapCountIsLowNibble` | internal/decoding/map.go:22-23 | The count taken from a fixmap code is its low nibble. |
| `MapFormat.MapLength` | internal/decoding/map.go:18-32 | A header that parses ends after the start and within the buffer, with a count below 2^32. |
| `MapFormat.MapLengthByCode` | internal/decoding/map.go:19-31 | Fixmap gives `code - 0x80` and offset+1. Map16 gives the big-endian uint16 of the next two bytes and offset+3. Map32 gives the big-endian uint32 of the next four and offset+5. A truncated map16/32 is out of range. Any other code is an invalid-code error for the kind. |
| `MapFormat.MapLengthRoundTrip` | internal/decoding/map.go:18-32 | Parsing the shortest header an encoder writes for `n` entries gives back `n` and the header's length. |
| `MapFormat.FixedMapLoop` | internal/decoding/map.go:44-55 | The fast-path map holds only string keys and int values, and the offset stays within the buffer. |
| `MapFormat.FixedMap` | internal/decoding/map.go:34-61 | The destination stays well typed, and the reported offset stays within the buffer. |
| `MapFormat.AsFixedMap` | internal/decoding/map.go:34-61 | The loop with its local map and offset produces exactly what `MapFormat.FixedMap` describes. |
| `Properties.NilLeavesDestination` | internal/decoding/decoding.go:279-282 | A nil code into a slice, array, map or pointer consumes one byte and leaves the destination unchanged. |
| `Properties.PointerAllocatesThenDecodes` | internal/decoding/decoding.go:284-293 | A non-nil code into a nil pointer allocates a zero target and decodes into it; an existing target is decoded into in place. The offset or error is the inner one, and the allocation survives an inner error. |
| `Properties.InterfaceNilKeeps` | internal/decoding/decoding.go:295-303 | A nil dynamic value leaves an interface untouched, a non-nil one is stored, and an error writes nothing. In every case the offset is the reader's. |
| `Properties.UnsupportedKindRejected` | internal/decoding/decoding.go:305-306 | A kind without a case, `uintptr` included, gives the invalid-code error for the leading byte and that kind, and writes nothing. |
| `Properties.SliceLoopInOrder` | internal/decoding/decoding.go:129-141 | Element `k` is decoded into a fresh zero value from where element `k-1` ended. There are exactly `l` elements, and the loop ends where the last element ends. |
| `Properties.SliceDecodesInOrder` | internal/decoding/decoding.go:113-141 | On the generic path, a successful slice has exactly the header's `l` elements, decoded in wire order from the offset after the header. |
| `Properties.SliceUntouchedOnError` | internal/decoding/decoding.go:131-140 | A failing slice decode leaves the destination unchanged, because the slice is stored only at the end. |
| `Properties.SliceFromBytes` | internal/decoding/decoding.go:94-110 | Bin or string bytes become the slice's elements, byte for byte. A slice whose element is not `uint8` refuses them. |
| `Properties.ArrayCapacity` | internal/decoding/decoding.go:167-184 | More wire elements than the array's length is an error, on the string path and on the generic path, and nothing is written. |
| `Properties.ArrayLoopInPlace` | internal/decoding/decoding.go:188-193 | Slots are decoded in place in order, each from its previous contents and the previous slot's end offset. A failure stops the loop, and every slot not reached keeps its contents. |
| `Properties.ArrayOverwritesPrefix` | internal/decoding/decoding.go:177-194 | A successful generic array decode overwrites exactly the first `l` slots, in wire order, and keeps the rest. |
| `Properties.ArrayFromBytes` | internal/decoding/decoding.go:150-174 | Bin or string bytes go into the first slots of an array of unsigned integers or `uintptr`s, one byte per slot, and the later slots are kept. Any other element type refuses non-empty bytes, and bytes longer than the array are an error; neither writes anything. |
| `Properties.ApplyLaterWins` | internal/decoding/decoding.go:236 | Storing pairs in order, the last pair under a key decides that key's value. |
| `Properties.ApplyKeepsOthers` | internal/decoding/decoding.go:236 | Storing pairs leaves every other key's presence and value unchanged. |
| `Properties.MapLoopStoresInOrder` | internal/decoding/decoding.go:224-237 | Each pair decodes as a key and then a value from where the previous pair ended, each into a fresh zero value. The result is the start map with those pairs stored in wire order. On success there are `l` pairs, and a failing pair is not stored. |
| `Properties.MapMergesIntoDestination` | internal/decoding/decoding.go:218-238 | The generic path stores the wire pairs, each decoded key then value from where the previous pair ended starting right after the header, in wire order into the existing map, or into a new one if the destination is nil (kept even on error). On success all `l` pairs are stored and the offset is where the last ends. |
| `Properties.FastPathMatchesGeneric` | internal/decoding/map.go:44-55 | The fast-path loop computes the same map, offset and error as the generic loop on `map[string]int`. |
| `Properties.StringIntMapReplaces` | internal/decoding/map.go:43-57 | For `map[string]int`, a success replaces the destination with a map of the `l` wire pairs only, each decoded from where the previous ended starting right after the header and stored in wire order, whatever the map held before. An error leaves the destination untouched. |
| `Properties.FixedMapOtherTypes` | internal/decoding/map.go:41-60 | For any type but `map[string]int`, `asFixedMap` returns the offset unchanged, not found and no error, and does not touch the destination. |
| `Properties.FixedMapAssignsOnlyOnSuccess` | internal/decoding/map.go:45-57 | A failing pair returns the error before the destination is assigned. A success assigns the decoded map and reports found. |
| `Properties.StructFirstClaimWins` | internal/decoding/decoding.go:252-260 | The first coder, in list order, whose `IsType` holds supplies the value, or its error. |
| `Properties.StructFallsBackToFlag` | internal/decoding/decoding.go:263-275 | When no coder claims the position, `asArray` alone chooses positional or named field decoding. |
| `Properties.PositionalIgnoresExtra` | internal/decoding/decoding.go:264 | With more wire elements than fields, the fields end up as decoding one element per field leaves them; a success decoded every field, an error among the fields is the result, and after the fields the remaining elements are skipped with `jumpOffset`. |
| `Properties.PositionalLoopInOrder` | internal/decoding/decoding.go:264 | Wire element `k` is decoded in place into field `i + k`, in order, each from where the previous ended; on success exactly `l` elements were read, on an error the failing field holds what its decode left, and fields not reached keep their contents. |
| `Properties.PositionalLoopKeeps` | internal/decoding/decoding.go:264 | Fields before the starting index and past the announced length keep their contents. |
| `Properties.NamedLoopKeepsUnnamed` | internal/decoding/decoding.go:270 | A field that no wire key selects keeps its contents. |
| `Properties.NamedLoopReadsAllKeys` | internal/decoding/decoding.go:270 | On success all `l` announced keys were read. |

## Left out

- Go reflection is replaced by `Dest`/`Value`.
  - Named Go types are not distinguished: the fast path applies to every destination of type
    `map[string]int`, where the original applies it only to the unnamed type.
  - Recursive Go types (a struct holding a pointer to itself) cannot be written as a `Dest`.
  - `Value` is a tree, so aliasing of pointers, maps and byte slices is not modelled: each
    value belongs to its holder alone.
    - Pointers: a pointer's target is not shared with other pointers.
    - Maps: Go maps are references. The generic map path adds pairs to the existing map object
      in place (`SetMapIndex` at decoding.go:236), so every other holder of that map sees the
      merged pairs, including those stored before an error. The `map[string]int` fast path
      installs a fresh map instead (`rv.Set` at map.go:56) and leaves the old map object as it
      was. The model shows only the destination's own contents afterwards.
    - Byte slices: `rv.SetBytes(bs)` (decoding.go:99, 109) keeps `bs` without copying, so the
      decoded `[]byte` shares memory with the input buffer window that `asBin` or
      `asStringByte` returned. The model's slice is an independent sequence of bytes.
- Nil and empty slices and strings are not distinguished.
- `Decode`'s holder is given by its type and value, not as an `interface{}`.
  - A holder that is not a pointer gives `NotPointer`. The error text is not modelled.
- Float values are opaque bit patterns: `asFloat32`/`asFloat64` decide them.
- Integer width truncation: `rv.SetInt`/`rv.SetUint` (decoding.go:44, 52) truncate to the
  destination's width. The model stores what `asInt`/`asUint` return unchanged, so it matches
  the original only when those readers return values that already fit the width.
- Map keys are compared by structural equality of `Value`. Go's `SetMapIndex` differs:
  - float keys compare by IEEE equality (+0 equals -0, a NaN key never equals itself);
  - pointer keys compare by address, and every decoded key is a fresh pointer, so a later
    pair never replaces an earlier one;
  - an interface key holding an unhashable value panics.
- `MapFormat.MapLength`: `int` is assumed to be 64 bits wide. On a 32-bit platform
  `int(Uint32(bs))` turns a map32 count of 2^31 or more negative and the original's loop runs
  zero times; the model returns the count unchanged.
- The helpers outside `decoding.go` and `map.go` are parameters, constrained only by `Valid`:
  - the scalar readers;
  - `stringByteLength` and `sliceLength`;
  - `asInterface`;
  - `jumpOffset`;
  - the extension coders' `IsType`/`AsValue`.

  The extension coders are a sequence inside the decoder rather than a global list.
- `asFixedSlice` (the slice fast path) is not modelled. The slice case always takes the
  generic path; `asFixedSlice` is assumed to compute what the generic path computes.
- `setStructFromArray` and `setStructFromMap` live elsewhere in the package. This model takes
  them to be:
  - Positional: an array header, then element `k` into field `k`; elements past the last
    field are skipped with `jumpOffset`.
  - Named: a map header, then for each pair a string key. The value goes into the first
    field whose wire name equals the key, or is skipped with `jumpOffset` when no field has
    that name.
  - Field tags, embedded structs and unexported fields are not modelled.
- `IfaceD` stands for the empty interface `interface{}`. For an interface type with methods,
  `rv.Set` (decoding.go:301) panics when the dynamic value `asInterface` returns does not
  implement it. The model stores the value and succeeds, in a struct field, slice element or
  map value of interface type as well.
- Runtime panics of the original become errors.
  - `OutOfRange`: indexing `data[offset]` past the end, or a short `readSize2/4` or
    `asStringByte`.
  - `NotAssignable`: `SetBytes` on a slice whose element is not `uint8`, `SetUint` on an
    array whose element is neither an unsigned integer nor a `uintptr`, or an extension value of the wrong type.
  - `CapacityExceeded`: bin data longer than the destination array, where the original has
    no length check and panics on the first slot past the end.
  - A panic aborts the program, so the destination a model error reports in those cases
    (unchanged) has no counterpart.
- `Engine.SetUints`: refuses bin data longer than the array before writing anything. The
  original writes the slots that fit and then panics.
- The commented-out date-time block in the struct case is not modelled.
- Error messages are not modelled, only the error's kind and its data.
