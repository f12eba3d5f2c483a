/** What the decoder promises, stated about the functions of `Engine` and `MapFormat`: what a
    nil code leaves, the order in which container elements are decoded, which slots, entries and
    fields are overwritten and which are kept, how extension coders and the struct convention
    are chosen, and how the `map[string]int` fast path differs from the generic map path. */
module Properties {
  import opened Types
  import opened Wire
  import opened Collaborators
  import opened MapFormat
  import opened Engine

  /** Decoding into a destination of type `t` holding `v`, at offset `o`, succeeds, leaving
      `v'` and ending at `o'`. */
  predicate Step(dec: Decoder, t: Dest, v: Value, o: nat, v': Value, o': nat) {
    Conforms(v, t) && Des(dec, t, v, o) == Decoded(v', Ok(o'))
  }

  /** A map pair decoded at `o`: a key into a fresh zero key, then a value into a fresh zero
      value from where the key ended, the pair ending at `o'`. */
  predicate PairStep(dec: Decoder, kd: Dest, vd: Dest, o: nat, pair: (Value, Value), o': nat) {
    var kr := Des(dec, kd, Zero(kd), o);
    kr.dst == pair.0 && kr.res.Ok? && Step(dec, vd, Zero(vd), kr.res.value, pair.1, o')
  }

  // ---------------------------------------------------------------------------------------
  // Nil, pointers, interfaces and unsupported kinds

  /** A nil code decoded into a slice, an array, a map or a pointer consumes one byte and
      leaves the destination as it was (a nil map stays nil, a nil pointer stays nil). */
  lemma NilLeavesDestination(dec: Decoder, d: Dest, cur: Value, off: nat)
    requires Conforms(cur, d)
    requires d.SliceD? || d.ArrayD? || d.MapD? || d.PtrD?
    requires off < |dec.data| && dec.data[off] == Nil
    ensures Des(dec, d, cur, off) == Decoded(cur, Ok(off + 1))
  {
  }

  /** A pointer meets a non-nil code: a nil pointer is first pointed at a zero value of its
      target type, an existing target is decoded into in place, and the offset (or the error)
      is the inner decode's. The allocation stays even when the inner decode fails. */
  lemma PointerAllocatesThenDecodes(dec: Decoder, t: Dest, cur: Value, off: nat)
    requires Conforms(cur, PtrD(t))
    requires off < |dec.data| && dec.data[off] != Nil
    ensures var inner := if cur.target.None? then Zero(t) else cur.target.value;
            var r := Des(dec, t, inner, off);
            Des(dec, PtrD(t), cur, off) == Decoded(PtrV(Some(r.dst)), r.res)
  {
  }

  /** An interface destination takes the dynamic value when there is one; a nil dynamic value
      leaves the destination untouched but still consumes the wire value. */
  lemma InterfaceNilKeeps(dec: Decoder, cur: Value, off: nat)
    requires Conforms(cur, IfaceD)
    ensures var r := dec.readers.asInterface(dec.data, off);
            r.Ok? && r.value.0.None? ==> Des(dec, IfaceD, cur, off) == Decoded(cur, Ok(r.value.1))
    ensures var r := dec.readers.asInterface(dec.data, off);
            r.Ok? && r.value.0.Some? ==> Des(dec, IfaceD, cur, off) == Decoded(IfaceV(r.value.0), Ok(r.value.1))
    ensures var r := dec.readers.asInterface(dec.data, off);
            r.Err? ==> Des(dec, IfaceD, cur, off) == Decoded(cur, Err(r.error))
  {
  }

  /** A destination kind the dispatcher has no case for (`uintptr` among them) is an
      invalid-code error naming the leading byte and the kind; nothing is written and nothing
      is consumed. */
  lemma UnsupportedKindRejected(dec: Decoder, d: Dest, cur: Value, off: nat)
    requires (d.UintptrD? || d.OtherD?) && Conforms(cur, d)
    requires off < |dec.data|
    ensures Des(dec, d, cur, off) == Decoded(cur, Err(InvalidCode(dec.data[off], KindOf(d))))
  {
  }

  // ---------------------------------------------------------------------------------------
  // Slices

  /** The generic slice loop decodes its elements one after the other, each into a fresh zero
      value, threading the offset: `offs[k]` is where element `k` starts and `offs[k + 1]`
      where it ends. On success there are exactly `l` elements. */
  lemma {:induction false} SliceLoopInOrder(dec: Decoder, d: Dest, l: nat, acc: seq<Value>, o: nat)
    returns (offs: seq<nat>)
    requires d.SliceD? && |acc| <= l
    requires forall i :: 0 <= i < |acc| ==> Conforms(acc[i], d.elem)
    requires SliceLoop(dec, d, l, acc, o).res.Ok?
    ensures var p := SliceLoop(dec, d, l, acc, o);
            && |p.acc| == l && p.acc[..|acc|] == acc
            && |offs| == l - |acc| + 1 && offs[0] == o && p.res == Ok(offs[l - |acc|])
            && forall k :: 0 <= k < l - |acc| ==>
                 Step(dec, d.elem, Zero(d.elem), offs[k], p.acc[|acc| + k], offs[k + 1])
    decreases l - |acc|
  {
    if |acc| == l {
      offs := [o];
    } else {
      var r := Des(dec, d.elem, Zero(d.elem), o);
      var rest := SliceLoopInOrder(dec, d, l, acc + [r.dst], r.res.value);
      offs := [o] + rest;
      var p := SliceLoop(dec, d, l, acc, o);
      assert p == SliceLoop(dec, d, l, acc + [r.dst], r.res.value);
      assert p.acc[..|acc| + 1] == acc + [r.dst];
      assert p.acc[..|acc|] == (p.acc[..|acc| + 1])[..|acc|];
    }
  }

  /** The generic slice path: the slice read from an array header of `l` elements holds
      exactly `l` elements, decoded in wire order; the destination is replaced only then. */
  lemma SliceDecodesInOrder(dec: Decoder, d: Dest, cur: Value, off: nat) returns (offs: seq<nat>)
    requires d.SliceD? && Conforms(cur, d)
    requires off < |dec.data|
    requires !IsCodeNil(dec.data[off]) && !IsCodeBin(dec.data[off]) && !IsCodeString(dec.data[off])
    requires dec.readers.sliceLength(dec.data, off).Ok?
    requires Des(dec, d, cur, off).res.Ok?
    ensures var (l, o) := dec.readers.sliceLength(dec.data, off).value;
            var r := Des(dec, d, cur, off);
            && r.dst.SliceV? && |r.dst.elems| == l
            && |offs| == l + 1 && offs[0] == o && r.res == Ok(offs[l])
            && forall k :: 0 <= k < l ==> Step(dec, d.elem, Zero(d.elem), offs[k], r.dst.elems[k], offs[k + 1])
  {
    var (l, o) := dec.readers.sliceLength(dec.data, off).value;
    offs := SliceLoopInOrder(dec, d, l, [], o);
  }

  /** A slice is never left half-decoded: when decoding fails, the destination is unchanged. */
  lemma SliceUntouchedOnError(dec: Decoder, d: Dest, cur: Value, off: nat)
    requires d.SliceD? && Conforms(cur, d)
    ensures Des(dec, d, cur, off).res.Err? ==> Des(dec, d, cur, off).dst == cur
  {
  }

  /** Bin or string data decoded into a slice becomes a slice of its bytes; only a `[]uint8`
      destination accepts it. */
  lemma SliceFromBytes(d: Dest, cur: Value, bs: Bytes, o: nat)
    requires d.SliceD? && Conforms(cur, d)
    ensures var r := SetBytes(d, cur, bs, o);
            && (d.elem == UintD(W8) ==>
                  r.res == Ok(o) && |r.dst.elems| == |bs|
                  && forall i :: 0 <= i < |bs| ==> r.dst.elems[i] == UintV(bs[i] as nat))
            && (d.elem != UintD(W8) ==> r == Decoded(cur, Err(NotAssignable(SliceKind))))
  {
  }

  // ---------------------------------------------------------------------------------------
  // Arrays

  /** An array whose length is smaller than the wire element count is an error, on the
      generic path and on the string path, and nothing is written. */
  lemma ArrayCapacity(dec: Decoder, d: Dest, cur: Value, off: nat)
    requires d.ArrayD? && Conforms(cur, d)
    requires off < |dec.data| && !IsCodeNil(dec.data[off]) && !IsCodeBin(dec.data[off])
    ensures var h := dec.readers.stringByteLength(dec.data, off);
            IsCodeString(dec.data[off]) && h.Ok? && h.value.0 > d.len ==>
              Des(dec, d, cur, off) == Decoded(cur, Err(CapacityExceeded(d.len, h.value.0)))
    ensures var h := dec.readers.sliceLength(dec.data, off);
            !IsCodeString(dec.data[off]) && h.Ok? && h.value.0 > d.len ==>
              Des(dec, d, cur, off) == Decoded(cur, Err(CapacityExceeded(d.len, h.value.0)))
  {
  }

  /** The array loop decodes slot by slot in place: the slots before `i` and from the first
      one not reached on are kept. `offs` threads the offset through the `|offs| - 1` slots
      that decoded; on an error, the slot that failed holds whatever its decode left. */
  lemma {:induction false} ArrayLoopInPlace(dec: Decoder, d: Dest, l: nat, i: nat, elems: seq<Value>, o: nat)
    returns (offs: seq<nat>)
    requires d.ArrayD? && i <= l <= d.len && |elems| == d.len
    requires forall j :: 0 <= j < d.len ==> Conforms(elems[j], d.elem)
    ensures var p := ArrayLoop(dec, d, l, i, elems, o);
            var n := |offs| - 1;
            && 1 <= |offs| && i + n <= l && offs[0] == o
            && (forall k :: 0 <= k < n ==> Step(dec, d.elem, elems[i + k], offs[k], p.acc[i + k], offs[k + 1]))
            && (p.res.Ok? ==> i + n == l && p.res == Ok(offs[n]))
            && (p.res.Err? ==> i + n < l && Des(dec, d.elem, elems[i + n], offs[n]) == Decoded(p.acc[i + n], p.res))
            && (forall j :: 0 <= j < d.len && (j < i || j > i + n || (j == i + n && p.res.Ok?)) ==>
                  p.acc[j] == elems[j])
    decreases l - i
  {
    if i == l {
      offs := [o];
    } else {
      var r := Des(dec, d.elem, elems[i], o);
      var elems' := elems[i := r.dst];
      if r.res.Err? {
        offs := [o];
      } else {
        var rest := ArrayLoopInPlace(dec, d, l, i + 1, elems', r.res.value);
        offs := [o] + rest;
        var p := ArrayLoop(dec, d, l, i, elems, o);
        assert p == ArrayLoop(dec, d, l, i + 1, elems', r.res.value);
        forall k | 1 <= k < |offs| - 1
          ensures Step(dec, d.elem, elems[i + k], offs[k], p.acc[i + k], offs[k + 1])
        {
          assert elems[i + k] == elems'[(i + 1) + (k - 1)];
          assert offs[k] == rest[k - 1] && offs[k + 1] == rest[k];
        }
      }
    }
  }

  /** The generic array path: with `l` wire elements and room for them, slot `k < l` is
      decoded in place from the `k`-th wire element, in order, and the slots from `l` on keep
      their previous contents. */
  lemma ArrayOverwritesPrefix(dec: Decoder, d: Dest, cur: Value, off: nat) returns (offs: seq<nat>)
    requires d.ArrayD? && Conforms(cur, d)
    requires off < |dec.data|
    requires !IsCodeNil(dec.data[off]) && !IsCodeBin(dec.data[off]) && !IsCodeString(dec.data[off])
    requires dec.readers.sliceLength(dec.data, off).Ok?
    requires Des(dec, d, cur, off).res.Ok?
    ensures var (l, o) := dec.readers.sliceLength(dec.data, off).value;
            var r := Des(dec, d, cur, off);
            && l <= d.len && r.dst.ArrayV? && |r.dst.elems| == d.len
            && |offs| == l + 1 && offs[0] == o && r.res == Ok(offs[l])
            && (forall k :: 0 <= k < l ==> Step(dec, d.elem, cur.elems[k], offs[k], r.dst.elems[k], offs[k + 1]))
            && (forall j :: l <= j < d.len ==> r.dst.elems[j] == cur.elems[j])
  {
    var (l, o) := dec.readers.sliceLength(dec.data, off).value;
    offs := ArrayLoopInPlace(dec, d, l, 0, cur.elems, o);
  }

  /** Bin or string bytes stored into an array of unsigned integers or `uintptr`s: slot `i`
      takes byte `i`, and the slots past the bytes keep their contents. Any other element type
      refuses a non-empty byte string. */
  lemma ArrayFromBytes(d: Dest, cur: Value, bs: Bytes, o: nat)
    requires d.ArrayD? && Conforms(cur, d)
    ensures |bs| > 0 && !AcceptsUint(d.elem) ==> SetUints(d, cur, bs, o) == Decoded(cur, Err(NotAssignable(KindOf(d.elem))))
    ensures AcceptsUint(d.elem) && |bs| > d.len ==> SetUints(d, cur, bs, o) == Decoded(cur, Err(CapacityExceeded(d.len, |bs|)))
    ensures (AcceptsUint(d.elem) || |bs| == 0) && |bs| <= d.len ==>
              var r := SetUints(d, cur, bs, o);
              && r.res == Ok(o) && r.dst.ArrayV? && |r.dst.elems| == d.len
              && (forall i :: 0 <= i < |bs| ==> r.dst.elems[i] == UintV(bs[i] as nat))
              && (forall i :: |bs| <= i < d.len ==> r.dst.elems[i] == cur.elems[i])
  {
  }

  // ---------------------------------------------------------------------------------------
  // Maps

  /** The map obtained by storing the pairs one after the other, a later pair replacing an
      earlier one under an equal key. */
  function Apply(m: map<Value, Value>, ps: seq<(Value, Value)>): map<Value, Value>
    decreases |ps|
  {
    if |ps| == 0 then m else Apply(m[ps[0].0 := ps[0].1], ps[1..])
  }

  /** The last pair stored under a key decides its value. */
  lemma {:induction false} ApplyLaterWins(m: map<Value, Value>, ps: seq<(Value, Value)>, j: nat)
    requires j < |ps|
    requires forall k :: j < k < |ps| ==> ps[k].0 != ps[j].0
    ensures ps[j].0 in Apply(m, ps) && Apply(m, ps)[ps[j].0] == ps[j].1
    decreases |ps|
  {
    if j == 0 {
      ApplyKeepsOthers(m[ps[0].0 := ps[0].1], ps[1..], ps[0].0);
    } else {
      ApplyLaterWins(m[ps[0].0 := ps[0].1], ps[1..], j - 1);
    }
  }

  /** A key that no pair carries keeps its entry, or its absence. */
  lemma {:induction false} ApplyKeepsOthers(m: map<Value, Value>, ps: seq<(Value, Value)>, key: Value)
    requires forall k :: 0 <= k < |ps| ==> ps[k].0 != key
    ensures key in Apply(m, ps) <==> key in m
    ensures key in m ==> Apply(m, ps)[key] == m[key]
    decreases |ps|
  {
    if |ps| > 0 {
      ApplyKeepsOthers(m[ps[0].0 := ps[0].1], ps[1..], key);
    }
  }

  /** The generic map loop stores the pairs it decodes, key then value, in wire order:
      `ps[k]` is the `k`-th pair and `offs[k]` where it starts. The map reached is the start
      map with those pairs stored; a failing pair is not stored, and the pairs before it stay. */
  lemma {:induction false} MapLoopStoresInOrder(dec: Decoder, d: Dest, l: nat, i: nat, m: map<Value, Value>, o: nat)
    returns (ps: seq<(Value, Value)>, offs: seq<nat>)
    requires d.MapD? && i <= l
    requires EntriesConform(m, d.key, d.val)
    ensures var p := MapLoop(dec, d, l, i, m, o);
            && |ps| <= l - i && |offs| == |ps| + 1 && offs[0] == o
            && p.acc == Apply(m, ps)
            && (forall k :: 0 <= k < |ps| ==> PairStep(dec, d.key, d.val, offs[k], ps[k], offs[k + 1]))
            && (p.res.Ok? ==> |ps| == l - i && p.res == Ok(offs[|ps|]))
            && (p.res.Err? ==> |ps| < l - i)
    decreases l - i
  {
    if i == l {
      ps, offs := [], [o];
    } else {
      var kr := Des(dec, d.key, Zero(d.key), o);
      if kr.res.Err? {
        ps, offs := [], [o];
      } else {
        var vr := Des(dec, d.val, Zero(d.val), kr.res.value);
        if vr.res.Err? {
          ps, offs := [], [o];
        } else {
          var ps', offs' := MapLoopStoresInOrder(dec, d, l, i + 1, m[kr.dst := vr.dst], vr.res.value);
          ps, offs := [(kr.dst, vr.dst)] + ps', [o] + offs';
          assert ps[1..] == ps';
          forall k | 0 <= k < |ps|
            ensures PairStep(dec, d.key, d.val, offs[k], ps[k], offs[k + 1])
          {
            if k == 0 {
              assert ps[0] == (kr.dst, vr.dst) && offs[0] == o && offs[1] == vr.res.value;
            } else {
              assert ps[k] == ps'[k - 1] && offs[k] == offs'[k - 1] && offs[k + 1] == offs'[k];
            }
          }
        }
      }
    }
  }

  /** The generic map path merges into the destination's map: an existing map is kept and
      added to, a nil map is replaced by a new one (even when a pair then fails), entries under
      keys the wire does not carry stay, and a later duplicate key wins. `ps[k]` is the `k`-th
      wire pair, decoded from `offs[k]` on, right after the header. */
  lemma MapMergesIntoDestination(dec: Decoder, d: Dest, cur: Value, off: nat)
    returns (ps: seq<(Value, Value)>, offs: seq<nat>)
    requires d.MapD? && d != StringIntMap && Conforms(cur, d)
    requires off < |dec.data| && !IsCodeNil(dec.data[off])
    requires MapLength(dec.data, off, MapKind).Ok?
    ensures var r := Des(dec, d, cur, off);
            var (l, o) := MapLength(dec.data, off, MapKind).value;
            var base := if cur.entries.None? then map[] else cur.entries.value;
            && r.dst == MapV(Some(Apply(base, ps)))
            && |ps| <= l && |offs| == |ps| + 1 && offs[0] == o
            && (forall k :: 0 <= k < |ps| ==> PairStep(dec, d.key, d.val, offs[k], ps[k], offs[k + 1]))
            && (r.res.Ok? ==> |ps| == l && r.res == Ok(offs[|ps|]))
            && (r.res.Err? ==> |ps| < l)
  {
    var (l, o) := MapLength(dec.data, off, MapKind).value;
    ps, offs := MapLoopStoresInOrder(dec, d, l, 0, cur.entries.GetOr(map[]), o);
  }

  /** The fast-path loop is the generic loop specialised to `map[string]int`. */
  lemma {:induction false} FastPathMatchesGeneric(dec: Decoder, l: nat, i: nat, m: map<Value, Value>, o: nat)
    requires i <= l
    requires EntriesConform(m, StrD, IntD(Platform))
    ensures FixedMapLoop(dec, l, i, m, o) == MapLoop(dec, StringIntMap, l, i, m, o)
    decreases l - i
  {
    if i < l {
      match dec.readers.asString(dec.data, o)
      case Err(_) =>
      case Ok((k, o1)) =>
        match dec.readers.asInt(dec.data, o1, Platform)
        case Err(_) =>
        case Ok((v, o2)) =>
          FastPathMatchesGeneric(dec, l, i + 1, m[StrV(k) := IntV(v)], o2);
    }
  }

  /** Unlike the generic path, the `map[string]int` fast path replaces the destination: on
      success the result holds the wire pairs only, whatever the map held before; on an error
      the destination is untouched. `ps[k]` is the `k`-th wire pair, decoded from `offs[k]` on,
      right after the header. */
  lemma StringIntMapReplaces(dec: Decoder, cur: Value, off: nat) returns (ps: seq<(Value, Value)>, offs: seq<nat>)
    requires Conforms(cur, StringIntMap)
    requires off < |dec.data| && !IsCodeNil(dec.data[off])
    requires MapLength(dec.data, off, MapKind).Ok?
    ensures var r := Des(dec, StringIntMap, cur, off);
            var (l, o) := MapLength(dec.data, off, MapKind).value;
            && |ps| <= l && |offs| == |ps| + 1 && offs[0] == o
            && (forall k :: 0 <= k < |ps| ==> PairStep(dec, StrD, IntD(Platform), offs[k], ps[k], offs[k + 1]))
            && (r.res.Ok? ==> r.dst == MapV(Some(Apply(map[], ps))) && |ps| == l && r.res == Ok(offs[|ps|]))
            && (r.res.Err? ==> r.dst == cur)
  {
    var (l, o) := MapLength(dec.data, off, MapKind).value;
    FastPathMatchesGeneric(dec, l, 0, map[], o);
    ps, offs := MapLoopStoresInOrder(dec, StringIntMap, l, 0, map[], o);
  }

  /** `asFixedMap` on any type but `map[string]int` does nothing: the offset is returned
      unchanged, not found, without error, and the destination is untouched. */
  lemma FixedMapOtherTypes(dec: Decoder, d: Dest, cur: Value, off: nat, l: nat)
    requires Conforms(cur, d) && d != StringIntMap
    ensures FixedMap(dec, d, cur, off, l) == FixedOutcome(cur, Ok((off, false)))
  {
  }

  /** On `map[string]int`, a pair that fails stops `asFixedMap` before the destination is
      assigned; a success assigns the decoded map and reports the fast path as taken. */
  lemma FixedMapAssignsOnlyOnSuccess(dec: Decoder, cur: Value, off: nat, l: nat)
    requires Conforms(cur, StringIntMap)
    ensures var f := FixedMap(dec, StringIntMap, cur, off, l);
            var p := FixedMapLoop(dec, l, 0, map[], off);
            && (p.res.Err? ==> f == FixedOutcome(cur, Err(p.res.error)))
            && (p.res.Ok? ==> f == FixedOutcome(MapV(Some(p.acc)), Ok((p.res.value, true))))
  {
  }

  // ---------------------------------------------------------------------------------------
  // Structs

  /** The extension coders are consulted in order and the first that claims the position
      supplies the value; a later coder is not consulted. */
  lemma StructFirstClaimWins(dec: Decoder, d: Dest, cur: Value, off: nat, i: nat)
    requires d.StructD? && Conforms(cur, d)
    requires i < |dec.extCoders| && dec.extCoders[i].isType(dec.data, off)
    requires forall j :: 0 <= j < i ==> !dec.extCoders[j].isType(dec.data, off)
    ensures var r := dec.extCoders[i].asValue(dec.data, off);
            r.Ok? && Conforms(r.value.0, d) ==> Des(dec, d, cur, off) == Decoded(r.value.0, Ok(r.value.1))
    ensures var r := dec.extCoders[i].asValue(dec.data, off);
            r.Ok? && !Conforms(r.value.0, d) ==> Des(dec, d, cur, off) == Decoded(cur, Err(NotAssignable(StructKind)))
    ensures dec.extCoders[i].asValue(dec.data, off).Err? ==>
              Des(dec, d, cur, off) == Decoded(cur, Err(dec.extCoders[i].asValue(dec.data, off).error))
  {
  }

  /** When no extension coder claims the position, the decoder's flag alone chooses between
      positional and named field decoding. */
  lemma StructFallsBackToFlag(dec: Decoder, d: Dest, cur: Value, off: nat)
    requires d.StructD? && Conforms(cur, d)
    requires forall j :: 0 <= j < |dec.extCoders| ==> !dec.extCoders[j].isType(dec.data, off)
    ensures dec.asArray ==> Des(dec, d, cur, off) == StructFromArray(dec, d, cur, off)
    ensures !dec.asArray ==> Des(dec, d, cur, off) == StructFromMap(dec, d, cur, off)
  {
  }

  /** Wire elements past the last field are skipped under the positional convention: the
      fields end up as decoding one element per field leaves them, a success has decoded every
      field, an error among the fields is the result, and otherwise the remaining elements are
      skipped with `jumpOffset`. */
  lemma PositionalIgnoresExtra(dec: Decoder, d: Dest, cur: Value, off: nat)
    requires d.StructD? && Conforms(cur, d)
    requires dec.readers.sliceLength(dec.data, off).Ok?
    requires dec.readers.sliceLength(dec.data, off).value.0 > |d.fields|
    ensures var o := dec.readers.sliceLength(dec.data, off).value.1;
            var p := PositionalLoop(dec, d, |d.fields|, 0, cur.fields, o);
            var r := StructFromArray(dec, d, cur, off);
            && r.dst == StructV(p.acc)
            && (r.res.Ok? ==> p.res.Ok?)
            && (p.res.Err? ==> r.res == p.res)
            && (p.res.Ok? ==> r.res == SkipValues(dec, dec.readers.sliceLength(dec.data, off).value.0 - |d.fields|, p.res.value))
  {
  }

  /** `offs` traces positional field decoding from field `i` on: wire element `k` is decoded
      in place into field `i + k`, in order, each from where the previous one ended; on an
      error, the field that failed holds whatever its decode left. */
  predicate PositionalTrace(dec: Decoder, d: Dest, l: nat, i: nat, fields: seq<Value>, o: nat, offs: seq<nat>)
    requires d.StructD? && i <= l <= |d.fields| && |fields| == |d.fields|
    requires forall j :: 0 <= j < |fields| ==> Conforms(fields[j], d.fields[j].dest)
  {
    TraceOf(dec, d, l, i, fields, o, offs, PositionalLoop(dec, d, l, i, fields, o))
  }

  /** `offs` traces how the fields from `i` on became `p.acc`, and where `p.res` came from;
      the fields the trace does not reach are as they were. */
  predicate TraceOf(dec: Decoder, d: Dest, l: nat, i: nat, fields: seq<Value>, o: nat, offs: seq<nat>,
                    p: Partial<seq<Value>>)
    requires d.StructD? && i <= l <= |d.fields| && |fields| == |d.fields| && |p.acc| == |d.fields|
    requires forall j :: 0 <= j < |fields| ==> Conforms(fields[j], d.fields[j].dest)
  {
    var n := |offs| - 1;
    && 1 <= |offs| && i + n <= l && offs[0] == o
    && (forall k :: 0 <= k < n ==>
          Step(dec, d.fields[i + k].dest, fields[i + k], offs[k], p.acc[i + k], offs[k + 1]))
    && (p.res.Ok? ==> i + n == l && p.res == Ok(offs[n]))
    && (p.res.Err? ==>
          i + n < l && Des(dec, d.fields[i + n].dest, fields[i + n], offs[n]) == Decoded(p.acc[i + n], p.res))
    && (forall j :: 0 <= j < |fields| && (j < i || i + n < j || (j == i + n && p.res.Ok?)) ==> p.acc[j] == fields[j])
  }

  /** Positional field decoding: wire element `k` is decoded in place into field `i + k`, in
      order, with the offset threaded through. */
  lemma {:induction false} PositionalLoopInOrder(dec: Decoder, d: Dest, l: nat, i: nat, fields: seq<Value>, o: nat)
    returns (offs: seq<nat>)
    requires d.StructD? && i <= l <= |d.fields| && |fields| == |d.fields|
    requires forall j :: 0 <= j < |fields| ==> Conforms(fields[j], d.fields[j].dest)
    ensures PositionalTrace(dec, d, l, i, fields, o, offs)
    decreases l - i
  {
    if i == l {
      offs := [o];
    } else {
      var r := Des(dec, d.fields[i].dest, fields[i], o);
      PositionalStep(dec, d, l, i, fields, o);
      if r.res.Err? {
        offs := [o];
      } else {
        var fields' := fields[i := r.dst];
        var rest := PositionalLoopInOrder(dec, d, l, i + 1, fields', r.res.value);
        offs := [o] + rest;
        var p := PositionalLoop(dec, d, l, i + 1, fields', r.res.value);
        assert p.acc[i] == fields'[i] == r.dst;
        TraceStep(dec, d, l, i, fields, o, r.res.value, rest, p);
      }
    }
  }

  /** One step of a trace: a decode of field `i` that ended at `o'`, followed by a trace from
      `i + 1`, is a trace from `i`. */
  lemma TraceStep(dec: Decoder, d: Dest, l: nat, i: nat, fields: seq<Value>, o: nat, o': nat, rest: seq<nat>,
                  p: Partial<seq<Value>>)
    requires d.StructD? && i < l <= |d.fields| && |fields| == |d.fields| && |p.acc| == |d.fields|
    requires forall j :: 0 <= j < |fields| ==> Conforms(fields[j], d.fields[j].dest)
    requires Step(dec, d.fields[i].dest, fields[i], o, p.acc[i], o')
    requires TraceOf(dec, d, l, i + 1, fields[i := p.acc[i]], o', rest, p)
    ensures TraceOf(dec, d, l, i, fields, o, [o] + rest, p)
  {
    var offs := [o] + rest;
    forall k | 1 <= k < |offs| - 1
      ensures Step(dec, d.fields[i + k].dest, fields[i + k], offs[k], p.acc[i + k], offs[k + 1])
    {
      assert (i + 1) + (k - 1) == i + k;
      assert offs[k] == rest[k - 1] && offs[k + 1] == rest[k];
    }
  }

  /** Positional field decoding from field `i` on leaves the fields before `i`, and the fields
      past the `l` the header announced, as they were. */
  lemma PositionalLoopKeeps(dec: Decoder, d: Dest, l: nat, i: nat, fields: seq<Value>, o: nat, j: nat)
    requires d.StructD? && i <= l <= |d.fields| && |fields| == |d.fields|
    requires forall k :: 0 <= k < |fields| ==> Conforms(fields[k], d.fields[k].dest)
    requires j < |fields| && (j < i || l <= j)
    ensures PositionalLoop(dec, d, l, i, fields, o).acc[j] == fields[j]
  {
    var offs := PositionalLoopInOrder(dec, d, l, i, fields, o);
  }

  /** One step of positional field decoding: field `i` is decoded in place, then the loop
      goes on from field `i + 1` unless that failed. */
  lemma PositionalStep(dec: Decoder, d: Dest, l: nat, i: nat, fields: seq<Value>, o: nat)
    requires d.StructD? && i < l <= |d.fields| && |fields| == |d.fields|
    requires forall k :: 0 <= k < |fields| ==> Conforms(fields[k], d.fields[k].dest)
    ensures var r := Des(dec, d.fields[i].dest, fields[i], o);
            var fields' := fields[i := r.dst];
            && (forall k :: 0 <= k < |fields'| ==> Conforms(fields'[k], d.fields[k].dest))
            && PositionalLoop(dec, d, l, i, fields, o)
               == if r.res.Err? then Partial(fields', r.res) else PositionalLoop(dec, d, l, i + 1, fields', r.res.value)
  {
  }

  /** The keys named field decoding reads, in wire order, before it stops. */
  function WireKeys(dec: Decoder, d: Dest, l: nat, i: nat, fields: seq<Value>, o: nat): (keys: seq<Bytes>)
    requires d.StructD? && i <= l && |fields| == |d.fields|
    requires forall j :: 0 <= j < |fields| ==> Conforms(fields[j], d.fields[j].dest)
    ensures |keys| <= l - i
    decreases l - i
  {
    if i == l then []
    else
      match dec.readers.asString(dec.data, o)
      case Err(_) => []
      case Ok((name, o1)) =>
        match FieldIndex(d.fields, name, 0)
        case Some(j) =>
          var r := Des(dec, d.fields[j].dest, fields[j], o1);
          if r.res.Err? then [name]
          else [name] + WireKeys(dec, d, l, i + 1, fields[j := r.dst], r.res.value)
        case None =>
          match dec.readers.jumpOffset(dec.data, o1)
          case Err(_) => [name]
          case Ok(o2) => [name] + WireKeys(dec, d, l, i + 1, fields, o2)
  }

  /** Named field decoding writes only the fields the wire names: a field that no key read
      selects (no key equals its name, or an earlier field has the same name) keeps its
      contents. */
  lemma {:induction false} NamedLoopKeepsUnnamed(dec: Decoder, d: Dest, l: nat, i: nat, fields: seq<Value>, o: nat, j: nat)
    requires d.StructD? && i <= l && |fields| == |d.fields|
    requires forall k :: 0 <= k < |fields| ==> Conforms(fields[k], d.fields[k].dest)
    requires j < |fields|
    requires forall k :: 0 <= k < |WireKeys(dec, d, l, i, fields, o)| ==>
               FieldIndex(d.fields, WireKeys(dec, d, l, i, fields, o)[k], 0) != Some(j)
    ensures NamedLoop(dec, d, l, i, fields, o).acc[j] == fields[j]
    decreases l - i
  {
    var keys := WireKeys(dec, d, l, i, fields, o);
    if i < l && dec.readers.asString(dec.data, o).Ok? {
      var (name, o1) := dec.readers.asString(dec.data, o).value;
      assert keys[0] == name;
      var f := FieldIndex(d.fields, name, 0);
      if f.Some? {
        NamedKeepsPastSelected(dec, d, l, i, fields, o, j);
      } else if dec.readers.jumpOffset(dec.data, o1).Ok? {
        var o2 := dec.readers.jumpOffset(dec.data, o1).value;
        var rest := WireKeys(dec, d, l, i + 1, fields, o2);
        assert keys == [name] + rest;
        forall k | 0 <= k < |rest|
          ensures FieldIndex(d.fields, rest[k], 0) != Some(j)
        {
          assert rest[k] == keys[k + 1];
        }
        NamedLoopKeepsUnnamed(dec, d, l, i + 1, fields, o2, j);
      }
    }
  }

  /** The step of `NamedLoopKeepsUnnamed` where the key read selects a field. */
  lemma {:induction false} NamedKeepsPastSelected(dec: Decoder, d: Dest, l: nat, i: nat, fields: seq<Value>, o: nat, j: nat)
    requires d.StructD? && i < l && |fields| == |d.fields|
    requires forall k :: 0 <= k < |fields| ==> Conforms(fields[k], d.fields[k].dest)
    requires j < |fields|
    requires dec.readers.asString(dec.data, o).Ok?
    requires FieldIndex(d.fields, dec.readers.asString(dec.data, o).value.0, 0).Some?
    requires forall k :: 0 <= k < |WireKeys(dec, d, l, i, fields, o)| ==>
               FieldIndex(d.fields, WireKeys(dec, d, l, i, fields, o)[k], 0) != Some(j)
    ensures NamedLoop(dec, d, l, i, fields, o).acc[j] == fields[j]
    decreases l - i, 0
  {
    var keys := WireKeys(dec, d, l, i, fields, o);
    var (name, o1) := dec.readers.asString(dec.data, o).value;
    var f := FieldIndex(d.fields, name, 0).value;
    assert keys[0] == name;
    assert f != j;
    var r := Des(dec, d.fields[f].dest, fields[f], o1);
    var fields' := fields[f := r.dst];
    if r.res.Ok? {
      var rest := WireKeys(dec, d, l, i + 1, fields', r.res.value);
      assert keys == [name] + rest;
      forall k | 0 <= k < |rest|
        ensures FieldIndex(d.fields, rest[k], 0) != Some(j)
      {
        assert rest[k] == keys[k + 1];
      }
      NamedLoopKeepsUnnamed(dec, d, l, i + 1, fields', r.res.value, j);
    }
  }

  /** A successful named field decoding has read all `l` keys the header announced. */
  lemma {:induction false} NamedLoopReadsAllKeys(dec: Decoder, d: Dest, l: nat, i: nat, fields: seq<Value>, o: nat)
    requires d.StructD? && i <= l && |fields| == |d.fields|
    requires forall k :: 0 <= k < |fields| ==> Conforms(fields[k], d.fields[k].dest)
    ensures NamedLoop(dec, d, l, i, fields, o).res.Ok? ==> |WireKeys(dec, d, l, i, fields, o)| == l - i
    decreases l - i
  {
    if i < l && dec.readers.asString(dec.data, o).Ok? {
      var (name, o1) := dec.readers.asString(dec.data, o).value;
      match FieldIndex(d.fields, name, 0)
      case Some(f) =>
        var r := Des(dec, d.fields[f].dest, fields[f], o1);
        if r.res.Ok? {
          NamedLoopReadsAllKeys(dec, d, l, i + 1, fields[f := r.dst], r.res.value);
        }
      case None =>
        if dec.readers.jumpOffset(dec.data, o1).Ok? {
          NamedLoopReadsAllKeys(dec, d, l, i + 1, fields, dec.readers.jumpOffset(dec.data, o1).value);
        }
    }
  }
}
