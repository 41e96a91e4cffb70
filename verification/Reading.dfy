/** The runtime's decoders as they run: moving a cursor forward, one field at a time. */
module Reading {
  import opened Wire
  import opened Bits
  import opened Schema
  import opened Values
  import opened Leb128
  import opened Presence
  import opened Encoder
  import opened Decoder

  lemma TagFields(tag: nat)
    ensures And(tag, 7) == tag % 8 && Shr(tag, 3) == tag / 8
  {
    hide And, Low, Shr;
    assert Pow2(1) == 2;
    assert Pow2(2) == 4;
    assert Pow2(3) == 8;
    AndMask(tag, 3);
    LowThree(tag);
  }

  method ReadTag(cur: Cursor) returns (r: Parse<Option<FieldTag>>)
    modifies cur
    ensures r == DecodeTag(old(cur.rest)) && cur.rest == r.rest
  {
    hide DecodeLeb, And, Shr;
    var tag := DecodeLeb128(cur);
    if tag.Err? {
      return tag.PropagateFailure();
    }
    if tag.value == 0 {
      return Ok(None, cur.rest);
    }
    TagFields(tag.value);
    return Ok(Some(FieldTag(Shr(tag.value, 3) % TWO_32, And(tag.value, 7))), cur.rest);
  }

  /** Checks the length, then cuts `n` bytes off the front. */
  method ReadBytes(n: nat, cur: Cursor) returns (r: Parse<bytes>)
    modifies cur
    ensures r == Take(n, old(cur.rest)) && cur.rest == r.rest
  {
    if |cur.rest| < n {
      return Err(UnexpectedEof, cur.rest);
    }
    var b := cur.rest[..n];
    cur.rest := cur.rest[n..];
    return Ok(b, cur.rest);
  }

  method SkipByWireType(wireType: nat, cur: Cursor) returns (r: Parse<()>)
    modifies cur
    ensures r == Skip(wireType, old(cur.rest)) && cur.rest == r.rest
    decreases |cur.rest|, 1
  {
    hide DecodeLeb, SkipFields;
    if wireType == FIXED8 {
      r := SkipBytes(1, cur);
    } else if wireType == VARINT {
      var n := DecodeLeb128(cur);
      r := if n.Ok? then Ok((), cur.rest) else n.PropagateFailure();
    } else if wireType == FIXED32 {
      r := SkipBytes(4, cur);
    } else if wireType == FIXED64 {
      r := SkipBytes(8, cur);
    } else if wireType == BYTES {
      var len := DecodeLeb128(cur);
      if len.Err? {
        return len.PropagateFailure();
      }
      r := SkipBytes(len.value, cur);
    } else if wireType == MESSAGE {
      r := SkipMessage(cur);
    } else if wireType == UNION {
      var tag := DecodeLeb128(cur);
      if tag.Err? {
        return tag.PropagateFailure();
      }
      TagFields(tag.value);
      r := SkipByWireType(And(tag.value, 7), cur);
    } else if wireType == UNIT {
      r := Ok((), cur.rest);
    } else {
      r := Err(InvalidWireType(wireType), cur.rest);
    }
  }

  method SkipBytes(n: nat, cur: Cursor) returns (r: Parse<()>)
    modifies cur
    ensures r == (var p := Take(n, old(cur.rest)); if p.Ok? then Ok((), p.rest) else Err(p.error, p.rest))
    ensures cur.rest == r.rest
  {
    var b := ReadBytes(n, cur);
    r := if b.Ok? then Ok((), cur.rest) else b.PropagateFailure();
  }

  /** Tags and payloads up to the terminator. */
  method SkipMessage(cur: Cursor) returns (r: Parse<()>)
    modifies cur
    ensures r == SkipFields(old(cur.rest)) && cur.rest == r.rest
    decreases |cur.rest|, 0
  {
    hide DecodeTag, Skip;
    while true
      invariant |cur.rest| <= |old(cur.rest)|
      invariant SkipFields(cur.rest) == SkipFields(old(cur.rest))
      decreases |cur.rest|
    {
      var tag := ReadTag(cur);
      if tag.Err? {
        return tag.PropagateFailure();
      }
      if tag.value.None? {
        return Ok((), cur.rest);
      }
      var s := SkipByWireType(tag.value.value.wireType, cur);
      if s.Err? {
        return s.PropagateFailure();
      }
    }
  }

  // ---------------------------------------------------------------- values

  /** The standalone decoder. */
  method DecodeValue(s: Schema, ty: Type, cur: Cursor) returns (r: Parse<Value>)
    requires Compiles(s) && Scoped(s, ty)
    modifies cur
    ensures r == Dec(s, ty, old(cur.rest)) && cur.rest == r.rest
    decreases |cur.rest|, Rank(s, ty), 4, 0
  {
    hide Compiles, DecodeLeb, DecElems, DecEntries, DecItem, DecStr, Rank;
    match ty
    case Str =>
      var len := DecodeLeb128(cur);
      if len.Err? {
        return len.PropagateFailure();
      }
      r := DecodeString(len.value, cur);
    case Array(t) =>
      var count := DecodeLeb128(cur);
      if count.Err? {
        return count.PropagateFailure();
      }
      var es := DecodeElems(s, t, count.value, cur);
      r := if es.Ok? then Ok(VArr(es.value), cur.rest) else es.PropagateFailure();
    case Map(k, t) =>
      var count := DecodeLeb128(cur);
      if count.Err? {
        return count.PropagateFailure();
      }
      var es := DecodeEntries(s, k, t, count.value, cur);
      r := if es.Ok? then Ok(VMap(es.value), cur.rest) else es.PropagateFailure();
    case Named(n) => r := DecodeItem(s, n, cur);
    case Bool => r := DecodeFixed(s, ty, 1, cur);
    case U8 => r := DecodeFixed(s, ty, 1, cur);
    case I8 => r := DecodeFixed(s, ty, 1, cur);
    case F32 => r := DecodeFixed(s, ty, 4, cur);
    case F64 => r := DecodeFixed(s, ty, 8, cur);
    case _ => r := DecodeVarint(s, ty, cur);
  }

  method DecodeString(len: nat, cur: Cursor) returns (r: Parse<Value>)
    modifies cur
    ensures r == DecStr(len, old(cur.rest)) && cur.rest == r.rest
  {
    hide ValidUtf8;
    var b := ReadBytes(len, cur);
    if b.Err? {
      return b.PropagateFailure();
    }
    r := if ValidUtf8(b.value) then Ok(VStr(b.value), cur.rest) else Err(InvalidUtf8, cur.rest);
  }

  method DecodeFixed(s: Schema, ty: Type, size: nat, cur: Cursor) returns (r: Parse<Value>)
    requires Compiles(s)
    requires match ty case F32 => size == 4 case F64 => size == 8 case _ => size == 1 && (ty.Bool? || ty.U8? || ty.I8?)
    modifies cur
    ensures r == Dec(s, ty, old(cur.rest)) && cur.rest == r.rest
  {
    hide Compiles, Rank, Signed;
    var b := ReadBytes(size, cur);
    if b.Err? {
      return b.PropagateFailure();
    }
    if ty.Bool? {
      r := if b.value[0] == 0 then Ok(VBool(false), cur.rest)
           else if b.value[0] == 1 then Ok(VBool(true), cur.rest)
           else Err(InvalidBool(b.value[0]), cur.rest);
    } else if ty.U8? {
      r := Ok(VUInt(b.value[0]), cur.rest);
    } else if ty.I8? {
      r := Ok(VInt(Signed(b.value[0], 8)), cur.rest);
    } else {
      r := Ok(VFloat(b.value), cur.rest);
    }
  }

  method DecodeVarint(s: Schema, ty: Type, cur: Cursor) returns (r: Parse<Value>)
    requires Compiles(s) && (ty.U16? || ty.U32? || ty.U64? || ty.I16? || ty.I32? || ty.I64?)
    modifies cur
    ensures r == Dec(s, ty, old(cur.rest)) && cur.rest == r.rest
  {
    hide Compiles, Rank, DecodeLeb, SignedVarint, Truncate;
    var n := DecodeLeb128(cur);
    if n.Err? {
      return n.PropagateFailure();
    }
    LebMinimal(old(cur.rest));
    match ty
    case U16 => r := Ok(VUInt(Truncate(n.value, 0x1_0000)), cur.rest);
    case U32 => r := Ok(VUInt(Truncate(n.value, TWO_32)), cur.rest);
    case U64 => r := Ok(VUInt(n.value), cur.rest);
    case I16 => r := Ok(VInt(SignedVarint(n.value, 16)), cur.rest);
    case I32 => r := Ok(VInt(SignedVarint(n.value, 32)), cur.rest);
    case I64 => r := Ok(VInt(SignedVarint(n.value, 64)), cur.rest);
  }

  /** What is left to decode after some elements, put behind those already read. */
  ghost function ElemsAfter(done: seq<Value>, tail: Parse<seq<Value>>): Parse<seq<Value>>
  {
    if tail.Ok? then Ok(done + tail.value, tail.rest) else tail
  }

  lemma ElemsTurn(s: Schema, ty: Type, count: nat, buf: bytes, done: seq<Value>)
    requires Compiles(s) && Scoped(s, ty) && count > 0
    ensures ElemsAfter(done, DecElems(s, ty, count, buf)) ==
      var e := Dec(s, ty, buf);
      if e.Err? then e.PropagateFailure() else ElemsAfter(done + [e.value], DecElems(s, ty, count - 1, e.rest))
  {
    hide Compiles, Dec;
    var e := Dec(s, ty, buf);
    if e.Ok? && DecElems(s, ty, count - 1, e.rest).Ok? {
      var es := DecElems(s, ty, count - 1, e.rest).value;
      assert done + ([e.value] + es) == done + [e.value] + es;
    }
  }

  lemma ElemsNone(s: Schema, ty: Type, buf: bytes, done: seq<Value>)
    requires Compiles(s) && Scoped(s, ty)
    ensures ElemsAfter(done, DecElems(s, ty, 0, buf)) == Ok(done, buf)
  {
    assert done + [] == done;
  }

  lemma ElemsAll(p: Parse<seq<Value>>)
    ensures ElemsAfter([], p) == p
  {
    if p.Ok? {
      assert [] + p.value == p.value;
    }
  }

  method DecodeElems(s: Schema, ty: Type, count: nat, cur: Cursor) returns (r: Parse<seq<Value>>)
    requires Compiles(s) && Scoped(s, ty)
    modifies cur
    ensures r == DecElems(s, ty, count, old(cur.rest)) && cur.rest == r.rest
    decreases |cur.rest|, Rank(s, ty), 5, 0
  {
    hide Compiles, Dec, DecElems, Rank, Scoped, ElemsAfter;
    var result := [];
    ElemsAll(DecElems(s, ty, count, cur.rest));
    for i := 0 to count
      invariant |cur.rest| <= |old(cur.rest)|
      invariant ElemsAfter(result, DecElems(s, ty, count - i, cur.rest)) == DecElems(s, ty, count, old(cur.rest))
    {
      ElemsTurn(s, ty, count - i, cur.rest, result);
      var e := DecodeValue(s, ty, cur);
      if e.Err? {
        return e.PropagateFailure();
      }
      result := result + [e.value];
    }
    ElemsNone(s, ty, cur.rest, result);
    return Ok(result, cur.rest);
  }

  lemma EntriesTurn(s: Schema, k: Type, t: Type, count: nat, buf: bytes, acc: seq<Entry>)
    requires Compiles(s) && Scoped(s, k) && Scoped(s, t) && count > 0
    ensures DecEntries(s, k, t, count, buf, acc) ==
      var key := Dec(s, k, buf);
      if key.Err? then key.PropagateFailure() else
        var val := Dec(s, t, key.rest);
        if val.Err? then val.PropagateFailure()
        else DecEntries(s, k, t, count - 1, val.rest, InsertEntry(acc, key.value, val.value))
  {
    hide Compiles, Dec, InsertEntry;
  }

  lemma EntriesNone(s: Schema, k: Type, t: Type, buf: bytes, acc: seq<Entry>)
    requires Compiles(s) && Scoped(s, k) && Scoped(s, t)
    ensures DecEntries(s, k, t, 0, buf, acc) == Ok(acc, buf)
  {
  }

  method DecodeEntries(s: Schema, k: Type, t: Type, count: nat, cur: Cursor) returns (r: Parse<seq<Entry>>)
    requires Compiles(s) && Scoped(s, k) && Scoped(s, t)
    modifies cur
    ensures r == DecEntries(s, k, t, count, old(cur.rest), []) && cur.rest == r.rest
    decreases |cur.rest|, EntryRank(s, k, t), 5, 0
  {
    hide Compiles, Dec, DecEntries, Rank, Scoped, InsertEntry;
    var result: seq<Entry> := [];
    for i := 0 to count
      invariant |cur.rest| <= |old(cur.rest)|
      invariant DecEntries(s, k, t, count - i, cur.rest, result) == DecEntries(s, k, t, count, old(cur.rest), [])
    {
      EntriesTurn(s, k, t, count - i, cur.rest, result);
      var key := DecodeValue(s, k, cur);
      if key.Err? {
        return key.PropagateFailure();
      }
      var val := DecodeValue(s, t, cur);
      if val.Err? {
        return val.PropagateFailure();
      }
      result := InsertEntry(result, key.value, val.value);
    }
    EntriesNone(s, k, t, cur.rest, result);
    return Ok(result, cur.rest);
  }

  method DecodeItem(s: Schema, n: string, cur: Cursor) returns (r: Parse<Value>)
    requires Compiles(s) && Scoped(s, Named(n))
    modifies cur
    ensures r == DecItem(s, n, old(cur.rest)) && cur.rest == r.rest
    decreases |cur.rest|, Rank(s, Named(n)), 3, 1
  {
    var it := Lookup(s, n).value;
    assert ScopedItem(s, it);
    match it
    case StructItem(_, fs) => r := DecodeStruct(s, n, cur);
    case MessageItem(_, fs) =>
      hide Compiles, DecFields, DefaultFields, Rank;
      var fields := DecodeFields(s, fs, DefaultFields(s, n), cur);
      r := if fields.Ok? then Ok(VMsg(fields.value), cur.rest) else fields.PropagateFailure();
    case EnumItem(_, vs) =>
      hide Compiles, DecodeLeb, Rank, HasVariant;
      var index := DecodeLeb128(cur);
      if index.Err? {
        return index.PropagateFailure();
      }
      var i := Truncate(index.value, TWO_32);
      r := if HasVariant(vs, i) then Ok(VEnum(i), cur.rest) else Err(UnknownEnumVariant(i), cur.rest);
    case UnionItem(_, vs) => r := DecodeUnion(s, n, cur);
  }

  method DecodeStruct(s: Schema, n: string, cur: Cursor) returns (r: Parse<Value>)
    requires Compiles(s) && Scoped(s, Named(n)) && Lookup(s, n).value.StructItem?
    modifies cur
    ensures r == DecItem(s, n, old(cur.rest)) && cur.rest == r.rest
    decreases |cur.rest|, Rank(s, Named(n)), 3, 0
  {
    var fs := Lookup(s, n).value.sfields;
    assert ScopedItem(s, Lookup(s, n).value);
    RequiredRank(s, n, fs);
    hide Compiles, DecSlots, DecodePresence, Rank, FieldsRank, CountOptional;
    var flags := DecodePresenceBits(CountOptional(fs), cur);
    if flags.Err? {
      return flags.PropagateFailure();
    }
    var slots := DecodeSlots(s, fs, flags.value, cur);
    r := if slots.Ok? then Ok(VStruct(slots.value), cur.rest) else slots.PropagateFailure();
  }

  method DecodeUnion(s: Schema, n: string, cur: Cursor) returns (r: Parse<Value>)
    requires Compiles(s) && Scoped(s, Named(n)) && Lookup(s, n).value.UnionItem?
    modifies cur
    ensures r == DecItem(s, n, old(cur.rest)) && cur.rest == r.rest
    decreases |cur.rest|, Rank(s, Named(n)), 3, 0
  {
    var vs := Lookup(s, n).value.uvariants;
    assert ScopedItem(s, Lookup(s, n).value);
    hide Compiles, DecodeLeb, Rank, DecField, Shr, VariantAt;
    var tag := DecodeLeb128(cur);
    if tag.Err? {
      return tag.PropagateFailure();
    }
    TagFields(tag.value);
    var index := Shr(tag.value, 3) % TWO_32;
    var variant := VariantAt(vs, index);
    if variant.None? {
      return Err(UnknownUnionVariant(index), cur.rest);
    }
    if variant.value.ty.None? {
      return Ok(VUnion(index, Absent), cur.rest);
    }
    var v := DecodeField(s, variant.value.ty.value, cur);
    r := if v.Ok? then Ok(VUnion(index, Present(v.value)), cur.rest) else v.PropagateFailure();
  }

  ghost function SlotsAfter(done: seq<Slot>, tail: Parse<seq<Slot>>): Parse<seq<Slot>>
  {
    if tail.Ok? then Ok(done + tail.value, tail.rest) else tail
  }

  lemma SlotsTurn(s: Schema, fields: seq<StructField>, flags: seq<bool>, buf: bytes, done: seq<Slot>)
    requires Compiles(s) && (forall f <- fields :: Scoped(s, f.ty)) && |flags| == CountOptional(fields) && fields != []
    ensures SlotsAfter(done, DecSlots(s, fields, flags, buf)) ==
      if fields[0].optional && !flags[0] then SlotsAfter(done + [Absent], DecSlots(s, fields[1..], flags[1..], buf))
      else
        var v := Dec(s, fields[0].ty, buf);
        var later := if fields[0].optional then flags[1..] else flags;
        if v.Err? then v.PropagateFailure()
        else SlotsAfter(done + [Present(v.value)], DecSlots(s, fields[1..], later, v.rest))
  {
    hide Compiles, Dec, Scoped;
    assert forall a: seq<Slot>, b: seq<Slot> :: done + (a + b) == done + a + b;
  }

  lemma SlotsEnd(s: Schema, buf: bytes, done: seq<Slot>, all: Parse<seq<Slot>>)
    requires Compiles(s)
    ensures SlotsAfter(done, DecSlots(s, [], [], buf)) == Ok(done, buf)
    ensures SlotsAfter([], all) == all
  {
    assert done + [] == done;
    assert all.Ok? ==> [] + all.value == all.value;
  }

  /** Fields in declaration order; `optIdx` counts the optional ones met so far. */
  method DecodeSlots(s: Schema, fields: seq<StructField>, flags: seq<bool>, cur: Cursor) returns (r: Parse<seq<Slot>>)
    requires Compiles(s) && (forall f <- fields :: Scoped(s, f.ty)) && |flags| == CountOptional(fields)
    modifies cur
    ensures r == DecSlots(s, fields, flags, old(cur.rest)) && cur.rest == r.rest
    decreases |cur.rest|, FieldsRank(s, fields), 1, 0
  {
    hide Compiles, Dec, DecSlots, Rank, Scoped, SlotsAfter;
    var slots := [];
    var optIdx := 0;
    SlotsEnd(s, cur.rest, slots, DecSlots(s, fields, flags, cur.rest));
    for i := 0 to |fields|
      invariant |cur.rest| <= |old(cur.rest)|
      invariant optIdx + CountOptional(fields[i..]) == |flags| && FieldsRank(s, fields[i..]) <= FieldsRank(s, fields)
      invariant SlotsAfter(slots, DecSlots(s, fields[i..], flags[optIdx..], cur.rest)) ==
        DecSlots(s, fields, flags, old(cur.rest))
    {
      var field := fields[i];
      assert fields[i..][1..] == fields[i + 1..] && fields[i..][0] == field;
      assert flags[optIdx..] != [] ==> flags[optIdx..][1..] == flags[optIdx + 1..];
      SlotsTurn(s, fields[i..], flags[optIdx..], cur.rest, slots);
      if field.optional && !flags[optIdx] {
        slots := slots + [Absent];
      } else {
        var v := DecodeValue(s, field.ty, cur);
        if v.Err? {
          return v.PropagateFailure();
        }
        slots := slots + [Present(v.value)];
      }
      optIdx := if field.optional then optIdx + 1 else optIdx;
    }
    assert fields[|fields|..] == [] && flags[optIdx..] == [];
    SlotsEnd(s, cur.rest, slots, Ok(slots, cur.rest));
    return Ok(slots, cur.rest);
  }

  lemma FieldsTurn(s: Schema, fs: seq<MessageField>, buf: bytes, acc: map<nat, Value>)
    requires Compiles(s) && forall f <- fs :: Scoped(s, f.ty)
    ensures DecFields(s, fs, buf, acc) ==
      var tag := DecodeTag(buf);
      if tag.Err? then tag.PropagateFailure()
      else if tag.value.None? then Ok(acc, tag.rest)
      else
        var f := FieldAt(fs, tag.value.value.index);
        if f.Some? then
          var v := DecField(s, f.value.ty, tag.rest);
          if v.Err? then v.PropagateFailure() else DecFields(s, fs, v.rest, acc[tag.value.value.index := v.value])
        else
          var k := Skip(tag.value.value.wireType, tag.rest);
          if k.Err? then k.PropagateFailure() else DecFields(s, fs, k.rest, acc)
  {
    hide Compiles, DecField, DecodeTag, Skip, Scoped, FieldAt;
  }

  /** `Self::default()`, then overwrite or skip until the zero tag. */
  method DecodeFields(s: Schema, fs: seq<MessageField>, init: map<nat, Value>, cur: Cursor)
    returns (r: Parse<map<nat, Value>>)
    requires Compiles(s) && forall f <- fs :: Scoped(s, f.ty)
    modifies cur
    ensures r == DecFields(s, fs, old(cur.rest), init) && cur.rest == r.rest
    decreases |cur.rest|, 0, 0, 0
  {
    hide Compiles, DecField, DecFields, DecodeTag, Skip, Scoped, Rank;
    var result: map<nat, Value> := init;
    while true
      invariant |cur.rest| <= |old(cur.rest)|
      invariant DecFields(s, fs, cur.rest, result) == DecFields(s, fs, old(cur.rest), init)
      decreases |cur.rest|
    {
      FieldsTurn(s, fs, cur.rest, result);
      var tag := ReadTag(cur);
      if tag.Err? {
        return tag.PropagateFailure();
      }
      if tag.value.None? {
        return Ok(result, cur.rest);
      }
      var index := tag.value.value.index;
      var field := FieldAt(fs, index);
      if field.Some? {
        var v := DecodeField(s, field.value.ty, cur);
        if v.Err? {
          return v.PropagateFailure();
        }
        result := result[index := v.value];
      } else {
        var skipped := SkipByWireType(tag.value.value.wireType, cur);
        if skipped.Err? {
          return skipped.PropagateFailure();
        }
      }
    }
  }

  method DecodeField(s: Schema, ty: Type, cur: Cursor) returns (r: Parse<Value>)
    requires Compiles(s) && Scoped(s, ty)
    modifies cur
    ensures r == DecField(s, ty, old(cur.rest)) && cur.rest == r.rest
    decreases |cur.rest|, Rank(s, ty), 6, 0
  {
    hide Compiles, Dec, DecDelimited, DecodeLeb, Rank;
    if WireType(s, ty) == BYTES {
      var len := DecodeLeb128(cur);
      if len.Err? {
        return len.PropagateFailure();
      }
      r := DecodeDelimited(s, ty, len.value, cur);
    } else {
      r := DecodeValue(s, ty, cur);
    }
  }

  /** Arrays and maps read from a slice of their own; on failure the caller's cursor has not moved. */
  method DecodeDelimited(s: Schema, ty: Type, len: nat, cur: Cursor) returns (r: Parse<Value>)
    requires Compiles(s) && Scoped(s, ty)
    modifies cur
    ensures r == DecDelimited(s, ty, len, old(cur.rest)) && cur.rest == r.rest
    decreases |cur.rest| + 1, 0, 0, 0
  {
    hide Compiles, Dec, DecSliceElems, DecSliceEntries, DecStr, Rank;
    match ty
    case Str => r := DecodeString(len, cur);
    case Array(t) =>
      if |cur.rest| < len {
        return Err(UnexpectedEof, cur.rest);
      }
      var slice := new Cursor(cur.rest[..len]);
      var v := DecodeSliceElems(s, t, slice);
      if v.Err? {
        return Err(v.error, cur.rest);
      }
      cur.rest := cur.rest[len..];
      r := Ok(v.value, cur.rest);
    case Map(k, t) =>
      if |cur.rest| < len {
        return Err(UnexpectedEof, cur.rest);
      }
      var slice := new Cursor(cur.rest[..len]);
      var v := DecodeSliceEntries(s, k, t, slice);
      if v.Err? {
        return Err(v.error, cur.rest);
      }
      cur.rest := cur.rest[len..];
      r := Ok(v.value, cur.rest);
    case _ => r := DecodeValue(s, ty, cur);
  }

  method DecodeSliceCount(size: Option<nat>, slice: Cursor) returns (r: Parse<nat>)
    modifies slice
    ensures r == SliceCount(size, old(slice.rest)) && (r.Ok? ==> slice.rest == r.rest)
  {
    hide DecodeLeb;
    if size.Some? {
      var len := |slice.rest|;
      if size.value == 0 {
        return Err(RemainderByZero, []);
      }
      if len % size.value != 0 {
        return Err(InvalidLength, []);
      }
      return Ok(len / size.value, slice.rest);
    }
    r := DecodeLeb128(slice);
  }

  method DecodeSliceElems(s: Schema, t: Type, slice: Cursor) returns (r: Parse<Value>)
    requires Compiles(s) && Scoped(s, t)
    modifies slice
    ensures r == DecSliceElems(s, t, old(slice.rest))
    decreases |slice.rest|, Rank(s, t), 6, 0
  {
    hide Compiles, DecElems, SliceCount, FixedSize, Rank, Scoped;
    var count := DecodeSliceCount(FixedSize(s, t), slice);
    if count.Err? {
      return count.PropagateFailure();
    }
    var es := DecodeElems(s, t, count.value, slice);
    r := if es.Ok? then Ok(VArr(es.value), es.rest) else es.PropagateFailure();
  }

  lemma SliceEntriesTurn(s: Schema, k: Type, t: Type, slice: bytes)
    requires Compiles(s) && Scoped(s, k) && Scoped(s, t)
    ensures DecSliceEntries(s, k, t, slice) ==
      var count := SliceCount(EntrySize(s, k, t), slice);
      if count.Err? then count.PropagateFailure()
      else
        var es := DecEntries(s, k, t, count.value, count.rest, []);
        if es.Ok? then Ok(VMap(es.value), es.rest) else es.PropagateFailure()
  {
    hide Compiles, DecEntries, SliceCount, EntrySize, Rank, Scoped, EntryRank;
  }

  method DecodeSliceEntries(s: Schema, k: Type, t: Type, slice: Cursor) returns (r: Parse<Value>)
    requires Compiles(s) && Scoped(s, k) && Scoped(s, t)
    modifies slice
    ensures r == DecSliceEntries(s, k, t, old(slice.rest))
    decreases |slice.rest|, EntryRank(s, k, t), 6, 0
  {
    hide Compiles, DecEntries, SliceCount, EntrySize, Rank, Scoped, EntryRank, DecSliceEntries;
    SliceEntriesTurn(s, k, t, slice.rest);
    var count := DecodeSliceCount(EntrySize(s, k, t), slice);
    if count.Err? {
      return count.PropagateFailure();
    }
    var es := DecodeEntries(s, k, t, count.value, slice);
    r := if es.Ok? then Ok(VMap(es.value), es.rest) else es.PropagateFailure();
  }
}
