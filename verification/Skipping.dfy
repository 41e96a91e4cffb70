/** Skipping is exact: a field of any type can be stepped over with nothing but its wire type. */
module Skipping {
  import opened Wire
  import opened Schema
  import opened Values
  import opened Leb128
  import opened Encoder
  import opened Decoder

  lemma TagParts(index: u32, wireType: nat)
    requires wireType <= UNIT
    ensures Tag(index, wireType) < TWO_64 && Tag(index, wireType) % 8 == wireType
    ensures Tag(index, wireType) / 8 % TWO_32 == index
    ensures UnitTag(index) < TWO_64 && UnitTag(index) % 8 == UNIT
    ensures index < 0x2000_0000 ==> UnitTag(index) == Tag(index, UNIT)
  {
  }

  /** A tag of index at least 1 is read back, and is never taken for the terminator. */
  lemma TagRead(index: u32, wireType: nat, rest: bytes)
    requires index > 0 && wireType <= UNIT
    ensures DecodeTag(Leb(Tag(index, wireType)) + rest) == Ok(Some(FieldTag(index, wireType)), rest)
  {
    hide DecodeLeb, Leb;
    TagParts(index, wireType);
    assert index > 0 ==> Tag(index, wireType) != 0;
    LebRoundTrip(Tag(index, wireType), rest);
  }

  lemma EndRead(rest: bytes)
    ensures DecodeTag([0] + rest) == Ok(None, rest)
  {
    hide DecodeLeb;
    LebRoundTrip(0, rest);
    assert Leb(0) == [0];
  }

  lemma TakeExact(content: bytes, rest: bytes)
    ensures Take(|content|, content + rest) == Ok(content, rest)
  {
  }

  /** The unsigned number a VARINT value is written as. */
  function VarintOf(s: Schema, ty: Type, v: Value): (n: nat)
    requires Compiles(s) && Scoped(s, ty) && Typed(s, ty, v) && WireType(s, ty) == VARINT
    ensures n < TWO_64 && Enc(s, ty, v) == Leb(n)
  {
    match ty
    case U16 => v.n
    case U32 => v.n
    case U64 => v.n
    case I16 => (ZigzagValue(v.i); ZigzagEncode(v.i))
    case I32 => (ZigzagValue(v.i); ZigzagEncode(v.i))
    case I64 => (ZigzagValue(v.i); ZigzagEncode(v.i))
    case Named(n) => (assert TypedItem(s, Lookup(s, n).value, v); v.index)
  }

  /**
   * For every type and value, skipping the payload by the type's wire type consumes exactly the
   * payload: nested messages, unions in unions and unit variants included.
   */
  lemma {:induction false} SkipPayload(s: Schema, ty: Type, v: Value, rest: bytes)
    requires Compiles(s) && Scoped(s, ty) && Typed(s, ty, v) && |EncPayload(s, ty, v)| < TWO_64
    ensures Skip(WireType(s, ty), EncPayload(s, ty, v) + rest) == Ok((), rest)
    decreases v, 3
  {
    var wt, payload := WireType(s, ty), EncPayload(s, ty, v);
    if wt == BYTES {
      var content := EncDelimited(s, ty, v);
      assert payload + rest == Leb(|content|) + (content + rest);
      LebRoundTrip(|content|, content + rest);
      TakeExact(content, rest);
    } else if wt == VARINT {
      LebRoundTrip(VarintOf(s, ty, v), rest);
    } else if wt == MESSAGE || wt == UNION {
      SkipNamed(s, Lookup(s, ty.name).value, v, rest);
    } else {
      TakeExact(payload, rest);
    }
  }

  /** One turn of the message loop of the skipper. */
  lemma SkipOneField(index: u32, wireType: nat, payload: bytes, after: bytes)
    requires index > 0 && wireType <= UNIT && Skip(wireType, payload + after) == Ok((), after)
    ensures SkipFields(Leb(Tag(index, wireType)) + payload + after) == SkipFields(after)
  {
    hide SkipFields, Skip, DecodeTag, Leb, Tag;
    TagRead(index, wireType, payload + after);
    SkipFieldsTurn(payload + after, FieldTag(index, wireType), Leb(Tag(index, wireType)) + (payload + after));
    assert Leb(Tag(index, wireType)) + payload + after == Leb(Tag(index, wireType)) + (payload + after);
  }

  lemma SkipFieldsTurn(b: bytes, t: FieldTag, buf: bytes)
    requires DecodeTag(buf) == Ok(Some(t), b) && Skip(t.wireType, b).Ok?
    ensures SkipFields(buf) == SkipFields(Skip(t.wireType, b).rest)
  {
    hide Skip, DecodeTag;
  }

  lemma SkipUnion(buf: bytes, tag: nat, b: bytes)
    requires DecodeLeb(buf) == Ok(tag, b)
    ensures Skip(UNION, buf) == Skip(tag % 8, b)
  {
    hide DecodeLeb, SkipFields;
  }

  lemma SkipTagged(tag: nat, payload: bytes, rest: bytes)
    requires tag < TWO_64 && Skip(tag % 8, payload + rest) == Ok((), rest)
    ensures Skip(UNION, Leb(tag) + payload + rest) == Ok((), rest)
  {
    hide Skip, Leb, DecodeLeb;
    LebRoundTrip(tag, payload + rest);
    SkipUnion(Leb(tag) + (payload + rest), tag, payload + rest);
    assert Leb(tag) + payload + rest == Leb(tag) + (payload + rest);
  }

  lemma {:induction false} SkipNamed(s: Schema, it: Item, v: Value, rest: bytes)
    requires Compiles(s) && ScopedIn(s, it) && TypedItem(s, it, v) && (it.MessageItem? || it.UnionItem?)
    requires |EncItem(s, it, v)| < TWO_64
    ensures Skip(if it.MessageItem? then MESSAGE else UNION, EncItem(s, it, v) + rest) == Ok((), rest)
    decreases v, 2
  {
    hide SkipFields, EncFields, EncVariant;
    assert Numbered(it) && ScopedItem(s, it);
    if it.MessageItem? {
      AllSendable(s, it);
      var order := SortByIndex(it.mfields);
      SkipMessage(s, it.mfields, order, v, rest);
      assert EncFields(s, it.mfields, order, v) + [0] + rest == EncFields(s, it.mfields, order, v) + ([0] + rest);
    } else {
      SkipVariant(s, VariantAt(it.uvariants, v.tag).value, v.payload, rest);
    }
  }

  lemma {:induction false} SkipVariant(s: Schema, variant: UnionVariant, payload: Slot, rest: bytes)
    requires Compiles(s) && (variant.ty.Some? ==> Scoped(s, variant.ty.value)) && TypedPayload(s, variant.ty, payload)
    requires |EncVariant(s, variant, payload)| < TWO_64
    ensures Skip(UNION, EncVariant(s, variant, payload) + rest) == Ok((), rest)
    decreases payload, 1
  {
    match variant.ty
    case None =>
      TagParts(variant.index, UNIT);
      SkipTagged(UnitTag(variant.index), [], rest);
      assert Leb(UnitTag(variant.index)) + [] == Leb(UnitTag(variant.index));
    case Some(t) =>
      TagParts(variant.index, WireType(s, t));
      SkipPayload(s, t, payload.value, rest);
      SkipTagged(Tag(variant.index, WireType(s, t)), EncPayload(s, t, payload.value), rest);
  }

  lemma {:induction false} SkipMessage(s: Schema, fields: seq<MessageField>, order: seq<MessageField>, v: Value,
    rest: bytes)
    requires Compiles(s) && v.VMsg? && TypedFields(s, fields, v) && Sendable(s, fields, order)
    requires (forall f <- order :: f.index > 0) && |EncFields(s, fields, order, v)| < TWO_64
    ensures SkipFields(EncFields(s, fields, order, v) + ([0] + rest)) == Ok((), rest)
    decreases v, 1, |order|
  {
    if order == [] {
      EndRead(rest);
    } else {
      var after := EncFields(s, fields, order[1..], v) + ([0] + rest);
      FieldsCons(s, fields, order, v, [0] + rest);
      SkipMessage(s, fields, order[1..], v, rest);
      SkipSent(s, fields, order[0], v, after);
    }
  }

  lemma {:induction false} SkipSent(s: Schema, fields: seq<MessageField>, f: MessageField, v: Value, after: bytes)
    requires Compiles(s) && v.VMsg? && TypedFields(s, fields, v) && FieldAt(fields, f.index) == Some(f) &&
      Scoped(s, f.ty)
    requires f.index > 0 && |EncSent(s, fields, f, v)| < TWO_64
    ensures SkipFields(EncSent(s, fields, f, v) + after) == SkipFields(after)
    decreases v, 0
  {
    hide SkipFields, Skip, EncPayload;
    assert [] + after == after;
    if f.index in v.fields {
      SkipPayload(s, f.ty, v.fields[f.index], after);
      SkipOneField(f.index, WireType(s, f.ty), EncPayload(s, f.ty, v.fields[f.index]), after);
    }
  }
}
