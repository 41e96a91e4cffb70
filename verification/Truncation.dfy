/**
 * What follows a value does not change how it is read, so nothing shorter than an encoding decodes:
 * an input that is cut off anywhere ends in `UnexpectedEof`.
 */
module Truncation {
  import opened Wire
  import opened Bits
  import opened Schema
  import opened Values
  import opened Leb128
  import opened Presence
  import opened Encoder
  import opened Decoder
  import opened Compatibility
  import opened Evolution

  /**
   * The outcome `q` on a longer input: the same value or error, with the extra bytes left; only an
   * early end may turn out otherwise.
   */
  ghost predicate Stable<T>(p: Parse<T>, q: Parse<T>, more: bytes)
  {
    (p.Ok? ==> q == Ok(p.value, p.rest + more)) &&
    (p.Err? && p.error != UnexpectedEof ==> q == Err(p.error, p.rest + more))
  }

  lemma StableValue<T>(v: T, rest: bytes, more: bytes)
    ensures Stable(Ok(v, rest), Ok(v, rest + more), more)
  {
  }

  lemma StableOk<T>(p: Parse<T>, q: Parse<T>, more: bytes)
    requires Stable(p, q, more) && p.Ok?
    ensures q == Ok(p.value, p.rest + more)
  {
  }

  /** An error passed on. */
  lemma StableError<T, U>(p: Parse<T>, q: Parse<T>, onwards: Parse<U>, more: bytes)
    requires Stable(p, q, more) && p.Err? && (q.Err? ==> onwards == Err(q.error, q.rest))
    ensures Stable(Err(p.error, p.rest), onwards, more)
  {
  }

  // ---------------------------------------------------------------- numbers, tags, skipping

  lemma {:induction false} LebFromStable(buf: bytes, more: bytes, shift: nat, acc: nat)
    ensures Stable(LebFrom(buf, shift, acc), LebFrom(buf + more, shift, acc), more)
    decreases |buf|
  {
    hide Low, Shl;
    if buf != [] {
      assert (buf + more)[1..] == buf[1..] + more && (buf + more)[0] == buf[0];
      if shift < 64 && buf[0] >= 128 {
        LebFromStable(buf[1..], more, shift + 7, acc + Low(Shl(buf[0] % 128, shift), 64));
      }
    }
  }

  lemma LebStable(buf: bytes, more: bytes)
    ensures Stable(DecodeLeb(buf), DecodeLeb(buf + more), more)
  {
    hide LebFrom;
    LebFromStable(buf, more, 0, 0);
  }

  lemma TagStable(buf: bytes, more: bytes)
    ensures Stable(DecodeTag(buf), DecodeTag(buf + more), more)
  {
    hide DecodeLeb;
    LebStable(buf, more);
  }

  lemma TakeStable(n: nat, buf: bytes, more: bytes)
    ensures Stable(Take(n, buf), Take(n, buf + more), more)
  {
    if n <= |buf| {
      assert (buf + more)[..n] == buf[..n] && (buf + more)[n..] == buf[n..] + more;
    }
  }

  lemma {:induction false} SkipStable(wireType: nat, buf: bytes, more: bytes)
    ensures Stable(Skip(wireType, buf), Skip(wireType, buf + more), more)
    decreases |buf|, 1
  {
    hide DecodeLeb, Take;
    if wireType == FIXED8 {
      TakeStable(1, buf, more);
    } else if wireType == FIXED32 {
      TakeStable(4, buf, more);
    } else if wireType == FIXED64 {
      TakeStable(8, buf, more);
    } else if wireType == MESSAGE {
      SkipFieldsStable(buf, more);
    } else if wireType == VARINT || wireType == BYTES || wireType == UNION {
      var n := DecodeLeb(buf);
      LebStable(buf, more);
      if n.Ok? && wireType == BYTES {
        TakeStable(n.value, n.rest, more);
      } else if n.Ok? && wireType == UNION {
        SkipStable(n.value % 8, n.rest, more);
      }
    }
  }

  lemma {:induction false} SkipFieldsStable(buf: bytes, more: bytes)
    ensures Stable(SkipFields(buf), SkipFields(buf + more), more)
    decreases |buf|, 0
  {
    hide DecodeTag, Skip;
    var tag := DecodeTag(buf);
    TagStable(buf, more);
    if tag.Ok? && tag.value.Some? {
      var payload := Skip(tag.value.value.wireType, tag.rest);
      SkipStable(tag.value.value.wireType, tag.rest, more);
      if payload.Ok? {
        SkipFieldsStable(payload.rest, more);
      }
    }
  }

  lemma PresenceStable(count: nat, buf: bytes, more: bytes)
    ensures Stable(DecodePresence(count, buf), DecodePresence(count, buf + more), more)
  {
    hide BitAt;
    var n := (count + 7) / 8;
    if n <= |buf| {
      forall i | 0 <= i < count ensures BitAt(buf + more, i) == BitAt(buf, i) {
        SameBit(buf, more, i);
      }
      assert BitsOf(count, buf + more) == BitsOf(count, buf);
      assert (buf + more)[n..] == buf[n..] + more;
    }
  }

  lemma SameBit(buf: bytes, more: bytes, i: nat)
    requires i / 8 < |buf|
    ensures BitAt(buf + more, i) == BitAt(buf, i)
  {
  }

  // ---------------------------------------------------------------- values

  /** Whatever the type and the input, bytes behind a value or behind an error leave it as it is. */
  lemma {:induction false} DecStable(s: Schema, ty: Type, buf: bytes, more: bytes)
    requires Compiles(s) && Scoped(s, ty)
    ensures Stable(Dec(s, ty, buf), Dec(s, ty, buf + more), more)
    decreases |buf|, Rank(s, ty), 4, 0
  {
    match ty
    case Named(n) => NamedStable(s, n, buf, more);
    case Array(t) => ArrayStable(s, t, buf, more);
    case Map(k, t) => MapStable(s, k, t, buf, more);
    case Str => StringStable(s, buf, more);
    case _ => ScalarStable(s, ty, buf, more);
  }

  lemma ScalarStable(s: Schema, ty: Type, buf: bytes, more: bytes)
    requires Compiles(s) && Scoped(s, ty) && !ty.Named? && !ty.Array? && !ty.Map? && !ty.Str?
    ensures Stable(Dec(s, ty, buf), Dec(s, ty, buf + more), more)
  {
    hide Dec;
    if ty in {Bool, U8, I8, F32, F64} {
      FixedStable(s, ty, buf, more);
    } else {
      VarintStable(s, ty, buf, more);
    }
  }

  lemma FixedStable(s: Schema, ty: Type, buf: bytes, more: bytes)
    requires Compiles(s) && ty in {Bool, U8, I8, F32, F64}
    ensures Stable(Dec(s, ty, buf), Dec(s, ty, buf + more), more)
  {
    hide Compiles, DecodeLeb, Take, Signed;
    TakeStable(if ty.F32? then 4 else if ty.F64? then 8 else 1, buf, more);
  }

  lemma VarintStable(s: Schema, ty: Type, buf: bytes, more: bytes)
    requires Compiles(s) && ty in {U16, U32, U64, I16, I32, I64}
    ensures Stable(Dec(s, ty, buf), Dec(s, ty, buf + more), more)
  {
    hide Compiles, DecodeLeb, Take, SignedVarint, Truncate;
    LebStable(buf, more);
  }

  lemma StringStable(s: Schema, buf: bytes, more: bytes)
    requires Compiles(s)
    ensures Stable(Dec(s, Str, buf), Dec(s, Str, buf + more), more)
  {
    hide Compiles, DecodeLeb, DecStr, Dec;
    var len := DecodeLeb(buf);
    StringTurn(s, buf);
    StringTurn(s, buf + more);
    LebStable(buf, more);
    if len.Ok? {
      TextStable(len.value, len.rest, more);
    }
  }

  lemma StringTurn(s: Schema, buf: bytes)
    requires Compiles(s)
    ensures var len := DecodeLeb(buf);
      Dec(s, Str, buf) == if len.Ok? then DecStr(len.value, len.rest) else Err(len.error, len.rest)
  {
    hide Compiles, DecodeLeb, DecStr;
  }

  lemma TextStable(len: nat, buf: bytes, more: bytes)
    ensures Stable(DecStr(len, buf), DecStr(len, buf + more), more)
  {
    hide Take, ValidUtf8;
    TakeStable(len, buf, more);
  }

  lemma {:induction false} NamedStable(s: Schema, n: string, buf: bytes, more: bytes)
    requires Compiles(s) && Scoped(s, Named(n))
    ensures Stable(Dec(s, Named(n), buf), Dec(s, Named(n), buf + more), more)
    decreases |buf|, Rank(s, Named(n)), 3, 1
  {
    hide Compiles, DecItem;
    ItemStable(s, n, buf, more);
  }

  lemma {:induction false} ArrayStable(s: Schema, t: Type, buf: bytes, more: bytes)
    requires Compiles(s) && Scoped(s, t)
    ensures Stable(Dec(s, Array(t), buf), Dec(s, Array(t), buf + more), more)
    decreases |buf|, Rank(s, Array(t)), 3, 0
  {
    hide Compiles, DecElems, DecodeLeb;
    var count := DecodeLeb(buf);
    LebStable(buf, more);
    if count.Ok? {
      ElemsStable(s, t, count.value, count.rest, more);
    }
  }

  lemma {:induction false} MapStable(s: Schema, k: Type, t: Type, buf: bytes, more: bytes)
    requires Compiles(s) && Scoped(s, k) && Scoped(s, t)
    ensures Stable(Dec(s, Map(k, t), buf), Dec(s, Map(k, t), buf + more), more)
    decreases |buf|, Rank(s, Map(k, t)), 3, 0
  {
    hide Compiles, DecEntries, DecodeLeb;
    var count := DecodeLeb(buf);
    LebStable(buf, more);
    if count.Ok? {
      EntriesStable(s, k, t, count.value, count.rest, [], more);
    }
  }

  lemma {:induction false} ElemsStable(s: Schema, ty: Type, count: nat, buf: bytes, more: bytes)
    requires Compiles(s) && Scoped(s, ty)
    ensures Stable(DecElems(s, ty, count, buf), DecElems(s, ty, count, buf + more), more)
    decreases |buf|, Rank(s, ty), 5, count
  {
    hide Compiles, Dec;
    if count > 0 {
      var e := Dec(s, ty, buf);
      DecStable(s, ty, buf, more);
      if e.Ok? {
        ElemsStable(s, ty, count - 1, e.rest, more);
      }
    }
  }

  lemma {:induction false} EntriesStable(
    s: Schema, k: Type, t: Type, count: nat, buf: bytes, acc: seq<Entry>, more: bytes)
    requires Compiles(s) && Scoped(s, k) && Scoped(s, t)
    ensures Stable(DecEntries(s, k, t, count, buf, acc), DecEntries(s, k, t, count, buf + more, acc), more)
    decreases |buf|, EntryRank(s, k, t), 5, count
  {
    hide Compiles, Dec, InsertEntry, DecEntries, Stable, Scoped;
    EntriesTurn(s, k, t, count, buf, acc);
    EntriesTurn(s, k, t, count, buf + more, acc);
    if count == 0 {
      StableValue(acc, buf, more);
    } else {
      var key, longer := Dec(s, k, buf), DecEntries(s, k, t, count, buf + more, acc);
      DecStable(s, k, buf, more);
      if key.Err? {
        StableError(key, Dec(s, k, buf + more), longer, more);
      } else {
        StableOk(key, Dec(s, k, buf + more), more);
        var val := Dec(s, t, key.rest);
        DecStable(s, t, key.rest, more);
        if val.Err? {
          StableError(val, Dec(s, t, key.rest + more), longer, more);
        } else {
          StableOk(val, Dec(s, t, key.rest + more), more);
          EntriesStable(s, k, t, count - 1, val.rest, InsertEntry(acc, key.value, val.value), more);
        }
      }
    }
  }

  /** One turn of the loop over entries. */
  lemma EntriesTurn(s: Schema, k: Type, t: Type, count: nat, buf: bytes, acc: seq<Entry>)
    requires Compiles(s) && Scoped(s, k) && Scoped(s, t)
    ensures DecEntries(s, k, t, count, buf, acc) ==
      if count == 0 then Ok(acc, buf)
      else
        var key := Dec(s, k, buf);
        if key.Err? then Err(key.error, key.rest)
        else
          var val := Dec(s, t, key.rest);
          if val.Err? then Err(val.error, val.rest)
          else DecEntries(s, k, t, count - 1, val.rest, InsertEntry(acc, key.value, val.value))
  {
    hide Compiles, Dec, InsertEntry, Rank;
  }

  lemma {:induction false} ItemStable(s: Schema, n: string, buf: bytes, more: bytes)
    requires Compiles(s) && Scoped(s, Named(n))
    ensures Stable(DecItem(s, n, buf), DecItem(s, n, buf + more), more)
    decreases |buf|, Rank(s, Named(n)), 3, 0
  {
    var it := Lookup(s, n).value;
    assert ScopedItem(s, it);
    hide Compiles, DecStruct, DecFields, DecUnion, DecEnum, DefaultFields;
    match it
    case StructItem(_, _) => StructStable(s, n, buf, more);
    case MessageItem(_, fs) => FieldsStable(s, fs, buf, DefaultFields(s, n), more);
    case EnumItem(_, vs) => EnumStable(vs, buf, more);
    case UnionItem(_, _) => UnionStable(s, n, buf, more);
  }

  lemma EnumStable(vs: seq<EnumVariant>, buf: bytes, more: bytes)
    ensures Stable(DecEnum(vs, buf), DecEnum(vs, buf + more), more)
  {
    hide DecodeLeb;
    LebStable(buf, more);
  }

  lemma {:induction false} StructStable(s: Schema, n: string, buf: bytes, more: bytes)
    requires Compiles(s) && Scoped(s, Named(n)) && Lookup(s, n).value.StructItem?
    ensures Stable(DecStruct(s, n, buf), DecStruct(s, n, buf + more), more)
    decreases |buf|, Rank(s, Named(n)), 2, 0
  {
    var fs := Lookup(s, n).value.sfields;
    assert ScopedItem(s, Lookup(s, n).value);
    RequiredRank(s, n, fs);
    hide Compiles, DecSlots, DecodePresence, CountOptional;
    var flags := DecodePresence(CountOptional(fs), buf);
    PresenceStable(CountOptional(fs), buf, more);
    if flags.Ok? {
      SlotsStable(s, fs, flags.value, flags.rest, more);
    }
  }

  lemma {:induction false} SlotsStable(
    s: Schema, fields: seq<StructField>, flags: seq<bool>, buf: bytes, more: bytes)
    requires Compiles(s) && (forall f <- fields :: Scoped(s, f.ty)) && |flags| == CountOptional(fields)
    ensures Stable(DecSlots(s, fields, flags, buf), DecSlots(s, fields, flags, buf + more), more)
    decreases |buf|, FieldsRank(s, fields), 1, |fields|
  {
    hide Compiles, Dec, Scoped, Rank, DecSlots, Stable;
    if fields == [] {
      NoSlots(s, flags, buf, more);
    } else {
      var skipped, later := fields[0].optional && !flags[0], if fields[0].optional then flags[1..] else flags;
      SlotsTurn(s, fields, flags, buf);
      SlotsTurn(s, fields, flags, buf + more);
      if skipped {
        SlotsStable(s, fields[1..], later, buf, more);
        StableSlot(Absent, DecSlots(s, fields[1..], later, buf), DecSlots(s, fields[1..], later, buf + more), more);
      } else {
        var p, q := Dec(s, fields[0].ty, buf), Dec(s, fields[0].ty, buf + more);
        DecStable(s, fields[0].ty, buf, more);
        if p.Err? {
          StableError(p, q, DecSlots(s, fields, flags, buf + more), more);
        } else {
          StableOk(p, q, more);
          var rest := DecSlots(s, fields[1..], later, p.rest);
          SlotsStable(s, fields[1..], later, p.rest, more);
          StableSlot(Present(p.value), rest, DecSlots(s, fields[1..], later, p.rest + more), more);
        }
      }
    }
  }

  /** The slots behind one more. */
  function WithSlot(slot: Slot, p: Parse<seq<Slot>>): Parse<seq<Slot>>
  {
    if p.Ok? then Ok([slot] + p.value, p.rest) else Err(p.error, p.rest)
  }

  lemma StableSlot(slot: Slot, p: Parse<seq<Slot>>, q: Parse<seq<Slot>>, more: bytes)
    requires Stable(p, q, more)
    ensures Stable(WithSlot(slot, p), WithSlot(slot, q), more)
  {
  }

  lemma NoSlots(s: Schema, flags: seq<bool>, buf: bytes, more: bytes)
    requires Compiles(s) && flags == []
    ensures Stable(DecSlots(s, [], flags, buf), DecSlots(s, [], flags, buf + more), more)
  {
  }

  /** One turn over the fields of a struct. */
  lemma SlotsTurn(s: Schema, fields: seq<StructField>, flags: seq<bool>, buf: bytes)
    requires Compiles(s) && (forall f <- fields :: Scoped(s, f.ty)) && |flags| == CountOptional(fields) && fields != []
    ensures var later := if fields[0].optional then flags[1..] else flags;
      DecSlots(s, fields, flags, buf) ==
        if fields[0].optional && !flags[0] then WithSlot(Absent, DecSlots(s, fields[1..], later, buf))
        else
          var p := Dec(s, fields[0].ty, buf);
          if p.Err? then Err(p.error, p.rest)
          else WithSlot(Present(p.value), DecSlots(s, fields[1..], later, p.rest))
  {
    hide Compiles, Dec, Scoped, Rank;
  }

  lemma {:induction false} UnionStable(s: Schema, n: string, buf: bytes, more: bytes)
    requires Compiles(s) && Scoped(s, Named(n)) && Lookup(s, n).value.UnionItem?
    ensures Stable(DecUnion(s, n, buf), DecUnion(s, n, buf + more), more)
    decreases |buf|, Rank(s, Named(n)), 2, 0
  {
    assert ScopedItem(s, Lookup(s, n).value);
    hide Compiles, DecField, DecodeLeb, VariantAt, DecUnion, Rank, Stable;
    var tag, longer := DecodeLeb(buf), DecUnion(s, n, buf + more);
    UnionTurn(s, n, buf);
    UnionTurn(s, n, buf + more);
    LebStable(buf, more);
    if tag.Err? {
      StableError(tag, DecodeLeb(buf + more), longer, more);
    } else {
      StableOk(tag, DecodeLeb(buf + more), more);
      VariantStable(s, Lookup(s, n).value.uvariants, tag.value / 8 % TWO_32, tag.rest, more);
    }
  }

  /** What follows the tag of a union. */
  function Payload(s: Schema, variants: seq<UnionVariant>, index: nat, buf: bytes): Parse<Value>
    requires Compiles(s) && forall v <- variants :: v.ty.Some? ==> Scoped(s, v.ty.value)
  {
    var variant := VariantAt(variants, index);
    if variant.None? then Err(UnknownUnionVariant(index), buf)
    else if variant.value.ty.None? then Ok(VUnion(index, Absent), buf)
    else
      var p := DecField(s, variant.value.ty.value, buf);
      if p.Err? then Err(p.error, p.rest) else Ok(VUnion(index, Present(p.value)), p.rest)
  }

  lemma UnionTurn(s: Schema, n: string, buf: bytes)
    requires Compiles(s) && Scoped(s, Named(n)) && Lookup(s, n).value.UnionItem?
    ensures ScopedItem(s, Lookup(s, n).value)
    ensures var tag := DecodeLeb(buf);
      DecUnion(s, n, buf) ==
        if tag.Err? then Err(tag.error, tag.rest)
        else Payload(s, Lookup(s, n).value.uvariants, tag.value / 8 % TWO_32, tag.rest)
  {
    assert ScopedItem(s, Lookup(s, n).value);
    hide Compiles, DecField, DecodeLeb, VariantAt, Scoped, Rank;
  }

  lemma {:induction false} VariantStable(
    s: Schema, variants: seq<UnionVariant>, index: nat, buf: bytes, more: bytes)
    requires Compiles(s) && forall v <- variants :: v.ty.Some? ==> Scoped(s, v.ty.value)
    ensures Stable(Payload(s, variants, index, buf), Payload(s, variants, index, buf + more), more)
    decreases |buf| + 1, 0, 0, 1
  {
    hide Compiles, DecField, VariantAt;
    var variant := VariantAt(variants, index);
    if variant.Some? && variant.value.ty.Some? {
      FieldStable(s, variant.value.ty.value, buf, more);
    }
  }

  lemma {:induction false} FieldsStable(
    s: Schema, fields: seq<MessageField>, buf: bytes, acc: map<nat, Value>, more: bytes)
    requires Compiles(s) && forall f <- fields :: Scoped(s, f.ty)
    ensures Stable(DecFields(s, fields, buf, acc), DecFields(s, fields, buf + more, acc), more)
    decreases |buf|, 0, 0, 0
  {
    hide Compiles, DecodeTag, DecField, Skip, FieldAt;
    var tag := DecodeTag(buf);
    TagStable(buf, more);
    if tag.Ok? && tag.value.Some? {
      var f := FieldAt(fields, tag.value.value.index);
      if f.Some? {
        var v := DecField(s, f.value.ty, tag.rest);
        FieldStable(s, f.value.ty, tag.rest, more);
        if v.Ok? {
          FieldsStable(s, fields, v.rest, acc[tag.value.value.index := v.value], more);
        }
      } else {
        var v := Skip(tag.value.value.wireType, tag.rest);
        SkipStable(tag.value.value.wireType, tag.rest, more);
        if v.Ok? {
          FieldsStable(s, fields, v.rest, acc, more);
        }
      }
    }
  }

  lemma {:induction false} FieldStable(s: Schema, ty: Type, buf: bytes, more: bytes)
    requires Compiles(s) && Scoped(s, ty)
    ensures Stable(DecField(s, ty, buf), DecField(s, ty, buf + more), more)
    decreases |buf|, Rank(s, ty), 6, 0
  {
    hide Compiles, Dec, DecDelimited, DecodeLeb;
    if WireType(s, ty) == BYTES {
      var len := DecodeLeb(buf);
      LebStable(buf, more);
      if len.Ok? {
        DelimitedStable(s, ty, len.value, len.rest, more);
      }
    } else {
      DecStable(s, ty, buf, more);
    }
  }

  /** Arrays and maps are read from a slice of their own, which more bytes do not touch. */
  lemma {:induction false} DelimitedStable(s: Schema, ty: Type, len: nat, buf: bytes, more: bytes)
    requires Compiles(s) && Scoped(s, ty)
    ensures Stable(DecDelimited(s, ty, len, buf), DecDelimited(s, ty, len, buf + more), more)
    decreases |buf| + 1, 0, 0, 0
  {
    hide Compiles, Dec, DecSliceElems, DecSliceEntries, DecStr;
    if len <= |buf| {
      assert (buf + more)[..len] == buf[..len] && (buf + more)[len..] == buf[len..] + more;
    }
    match ty
    case Str => TextStable(len, buf, more);
    case Array(t) =>
    case Map(k, t) =>
    case _ => DecStable(s, ty, buf, more);
  }

  // ---------------------------------------------------------------- what is left of a slice

  /**
   * Elements with their count in front: bytes behind the last of them, within the field's length, are
   * ignored. The same holds for entries.
   */
  lemma ElemsLeftover(s: Schema, t: Type, slice: bytes, junk: bytes)
    requires Compiles(s) && Scoped(s, t) && FixedSize(s, t).None? && DecSliceElems(s, t, slice).Ok?
    ensures DecSliceElems(s, t, slice + junk).Ok?
    ensures DecSliceElems(s, t, slice + junk).value == DecSliceElems(s, t, slice).value
  {
    hide Compiles, DecElems, DecodeLeb, FixedSize, Scoped;
    LebStable(slice, junk);
    var count := DecodeLeb(slice);
    ElemsStable(s, t, count.value, count.rest, junk);
  }

  lemma EntriesLeftover(s: Schema, k: Type, t: Type, slice: bytes, junk: bytes)
    requires Compiles(s) && Scoped(s, k) && Scoped(s, t) && EntrySize(s, k, t).None?
    requires DecSliceEntries(s, k, t, slice).Ok?
    ensures DecSliceEntries(s, k, t, slice + junk).Ok?
    ensures DecSliceEntries(s, k, t, slice + junk).value == DecSliceEntries(s, k, t, slice).value
  {
    hide Compiles, DecEntries, DecodeLeb, EntrySize, Scoped, Rank;
    LebStable(slice, junk);
    var count := DecodeLeb(slice);
    EntriesStable(s, k, t, count.value, count.rest, [], junk);
  }

  // ---------------------------------------------------------------- cut off anywhere

  /**
   * No proper beginning of an encoding decodes: for every legible value, compatible reader and place
   * to cut, the reader runs out of input, and reports nothing else.
   */
  lemma CutOffFails(w: Schema, r: Schema, ty: Type, v: Value, n: nat)
    requires BothScope(w, r, ty) && Typed(w, ty, v) && |Enc(w, ty, v)| < TWO_64 && Legible(w, r, ty, v)
    requires n < |Enc(w, ty, v)|
    ensures Dec(r, ty, Enc(w, ty, v)[..n]).Err? && Dec(r, ty, Enc(w, ty, v)[..n]).error == UnexpectedEof
  {
    hide Compiles, Evolves, Enc, Dec, Typed, Legible, Project;
    var whole := Enc(w, ty, v);
    var part, more := whole[..n], whole[n..];
    assert part + more == whole + [];
    ValueDecodes(w, r, ty, v, []);
    DecStable(r, ty, part, more);
  }
}
