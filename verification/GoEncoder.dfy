/**
 * The encoders the Go back end emits. A length-prefixed field is built in a buffer of its own and
 * copied behind its length: the simple form of what the Rust runtime patches in place. Both append
 * the same bytes, as long as no unit variant has an index that overflows Rust's u32 tag.
 */
module GoEncoder {
  import opened Wire
  import opened Schema
  import opened Values
  import opened Leb128
  import opened Presence
  import opened Encoder
  import Writing

  predicate UnitsFit(s: Schema)
  {
    forall it <- s :: it.UnionItem? ==> forall v <- it.uvariants :: v.ty.None? ==> v.index < 0x2000_0000
  }

  /** Go computes the tag of a unit variant in u64, Rust in u32: they agree on indices below 2^29 only. */
  lemma UnitTagsAgreeIff(index: u32)
    ensures UnitTag(index) == Tag(index, UNIT) <==> index < 0x2000_0000
  {
  }

  /** `in_bytes_field` is set for the content of a length-prefixed field and cleared one level down. */
  method EncodeValueToBuf(s: Schema, ty: Type, v: Value, buf: Buffer, inBytesField: bool)
    requires Compiles(s) && UnitsFit(s) && Scoped(s, ty) && Typed(s, ty, v)
    modifies buf
    ensures buf.data == old(buf.data) + if inBytesField then EncDelimited(s, ty, v) else Enc(s, ty, v)
    decreases v, 4
  {
    hide Compiles, UnitsFit, Leb, EncElems, EncEntries, EncItem, TypedItem, TypedElems, TypedEntries, FixedSize;
    match ty
    case Str =>
      if !inBytesField {
        EncodeLeb128(|v.utf8|, buf);
      }
      buf.Extend(v.utf8);
    case Array(t) =>
      var skipCount := inBytesField && FixedSize(s, t).Some?;
      if !skipCount {
        EncodeLeb128(|v.elems|, buf);
      }
      EncodeElems(s, t, v.elems, buf);
    case Map(k, t) =>
      var skipCount := inBytesField && FixedSize(s, k).Some? && FixedSize(s, t).Some?;
      if !skipCount {
        EncodeLeb128(|v.entries|, buf);
      }
      EncodeEntries(s, k, t, v.entries, buf);
    case Named(n) => EncodeItem(s, Lookup(s, n).value, v, buf);
    case _ => Writing.EncodeScalar(s, ty, v, buf);
  }

  method EncodeElems(s: Schema, ty: Type, es: seq<Value>, buf: Buffer)
    requires Compiles(s) && UnitsFit(s) && Scoped(s, ty) && TypedElems(s, ty, es)
    modifies buf
    ensures buf.data == old(buf.data) + EncElems(s, ty, es)
    decreases es, 0
  {
    hide Compiles, UnitsFit, Enc, Typed;
    for i := 0 to |es|
      invariant TypedElems(s, ty, es[i..])
      invariant buf.data + EncElems(s, ty, es[i..]) == old(buf.data) + EncElems(s, ty, es)
    {
      ghost var before := buf.data;
      Writing.ElemsTurn(s, ty, es[i..], before);
      assert es[i..][1..] == es[i + 1..];
      EncodeValueToBuf(s, ty, es[i], buf, false);
    }
  }

  method EncodeEntries(s: Schema, k: Type, t: Type, es: seq<Entry>, buf: Buffer)
    requires Compiles(s) && UnitsFit(s) && Scoped(s, k) && Scoped(s, t) && TypedEntries(s, k, t, es)
    modifies buf
    ensures buf.data == old(buf.data) + EncEntries(s, k, t, es)
    decreases es, 0
  {
    hide Compiles, UnitsFit, EncEntry, TypedEntry;
    for i := 0 to |es|
      invariant TypedEntries(s, k, t, es[i..])
      invariant buf.data + EncEntries(s, k, t, es[i..]) == old(buf.data) + EncEntries(s, k, t, es)
    {
      ghost var before := buf.data;
      Writing.EntriesTurn(s, k, t, es[i..], before);
      assert es[i..][1..] == es[i + 1..];
      EncodeEntry(s, k, t, es[i], buf);
    }
  }

  method EncodeEntry(s: Schema, k: Type, t: Type, e: Entry, buf: Buffer)
    requires Compiles(s) && UnitsFit(s) && Scoped(s, k) && Scoped(s, t) && TypedEntry(s, k, t, e)
    modifies buf
    ensures buf.data == old(buf.data) + EncEntry(s, k, t, e)
    decreases e, 0
  {
    hide Compiles, UnitsFit, Enc, Typed;
    EncodeValueToBuf(s, k, e.key, buf, false);
    EncodeValueToBuf(s, t, e.value, buf, false);
  }

  /** The `Encode` method generated for a struct, message, enum or union. */
  method EncodeItem(s: Schema, it: Item, v: Value, buf: Buffer)
    requires Compiles(s) && UnitsFit(s) && ScopedIn(s, it) && TypedItem(s, it, v)
    modifies buf
    ensures buf.data == old(buf.data) + EncItem(s, it, v)
    decreases v, 3
  {
    assert ScopedItem(s, it);
    match it
    case StructItem(_, fs) =>
      hide Compiles, UnitsFit, EncSlots, PresenceBits, TypedSlot;
      if HasOptional(fs) {
        EncodePresenceBits(Flags(fs, v.slots), buf);
      } else {
        Writing.NoPresence(fs, v.slots);
      }
      EncodeSlots(s, fs, v.slots, buf);
    case MessageItem(_, fs) =>
      AllSendable(s, it);
      hide Compiles, UnitsFit, EncFields, TypedFields, SortByIndex;
      EncodeFields(s, fs, SortByIndex(fs), v, buf);
      buf.Push(0);
    case EnumItem(_, _) => EncodeLeb128(v.index, buf);
    case UnionItem(_, vs) =>
      hide Compiles, EncVariant, TypedPayload;
      var variant := VariantAt(vs, v.tag).value;
      assert variant in vs;
      EncodeVariant(s, variant, v.payload, buf);
  }

  method EncodeSlots(s: Schema, fields: seq<StructField>, slots: seq<Slot>, buf: Buffer)
    requires Compiles(s) && UnitsFit(s) && (forall f <- fields :: Scoped(s, f.ty)) && TypedSlots(s, fields, slots)
    modifies buf
    ensures buf.data == old(buf.data) + EncSlots(s, fields, slots)
    decreases slots, 0
  {
    hide Compiles, UnitsFit, EncSlots, EncSlot, TypedSlots, TypedSlot, Scoped;
    Writing.SlotsEnd(s, fields, slots);
    for i := 0 to |slots|
      invariant |fields| == |slots|
      invariant TypedSlots(s, fields[i..], slots[i..])
      invariant buf.data + EncSlots(s, fields[i..], slots[i..]) == old(buf.data) + EncSlots(s, fields, slots)
    {
      ghost var before := buf.data;
      Writing.SlotsTurn(s, fields[i..], slots[i..], before);
      assert slots[i..][1..] == slots[i + 1..] && fields[i..][1..] == fields[i + 1..];
      EncodeSlot(s, fields[i].ty, fields[i].optional, slots[i], buf);
    }
  }

  method EncodeSlot(s: Schema, ty: Type, optional: bool, slot: Slot, buf: Buffer)
    requires Compiles(s) && UnitsFit(s) && Scoped(s, ty) && TypedSlot(s, ty, optional, slot)
    modifies buf
    ensures buf.data == old(buf.data) + EncSlot(s, ty, optional, slot)
    decreases slot, 1
  {
    hide Compiles, UnitsFit, Enc, Typed;
    if slot.Present? {
      EncodeValueToBuf(s, ty, slot.value, buf, false);
    }
  }

  method EncodeFields(s: Schema, fields: seq<MessageField>, order: seq<MessageField>, v: Value, buf: Buffer)
    requires Compiles(s) && UnitsFit(s) && v.VMsg? && TypedFields(s, fields, v) && Sendable(s, fields, order)
    modifies buf
    ensures buf.data == old(buf.data) + EncFields(s, fields, order, v)
    decreases v, 2, |order|
  {
    hide Compiles, UnitsFit, EncSent, TypedFields, FieldAt, Scoped;
    for i := 0 to |order|
      invariant Sendable(s, fields, order[i..])
      invariant buf.data + EncFields(s, fields, order[i..], v) == old(buf.data) + EncFields(s, fields, order, v)
    {
      ghost var before := buf.data;
      Writing.FieldsTurn(s, fields, order[i..], v, before);
      assert order[i..][1..] == order[i + 1..];
      EncodeSent(s, fields, order[i], v, buf);
    }
  }

  method EncodeSent(s: Schema, fields: seq<MessageField>, f: MessageField, v: Value, buf: Buffer)
    requires Compiles(s) && UnitsFit(s) && v.VMsg? && TypedFields(s, fields, v)
    requires FieldAt(fields, f.index) == Some(f) && Scoped(s, f.ty)
    modifies buf
    ensures buf.data == old(buf.data) + EncSent(s, fields, f, v)
    decreases v, 1
  {
    hide Compiles, UnitsFit, EncField, Typed;
    if f.index in v.fields {
      EncodeTaggedField(s, f.index, f.ty, v.fields[f.index], buf);
    }
  }

  method EncodeVariant(s: Schema, variant: UnionVariant, payload: Slot, buf: Buffer)
    requires Compiles(s) && UnitsFit(s) && (variant.ty.Some? ==> Scoped(s, variant.ty.value))
    requires TypedPayload(s, variant.ty, payload) && (variant.ty.None? ==> variant.index < 0x2000_0000)
    modifies buf
    ensures buf.data == old(buf.data) + EncVariant(s, variant, payload)
    decreases payload, 1
  {
    hide Compiles, UnitsFit, EncField, Typed, Leb;
    match variant.ty
    case None =>
      UnitTagsAgreeIff(variant.index);
      Writing.EncodeTag(variant.index, UNIT, buf);
    case Some(t) => EncodeTaggedField(s, variant.index, t, payload.value, buf);
  }

  lemma FieldBytes(s: Schema, index: u32, ty: Type, v: Value)
    requires Compiles(s) && Scoped(s, ty) && Typed(s, ty, v)
    ensures EncField(s, index, ty, v) == Leb(Tag(index, WireType(s, ty))) +
      if WireType(s, ty) == BYTES then Leb(|EncDelimited(s, ty, v)|) + EncDelimited(s, ty, v) else Enc(s, ty, v)
  {
    hide Compiles, Enc, EncDelimited, Typed, Leb, Tag;
  }

  /** The tag, then for BYTES the length and content of a temporary buffer. */
  method EncodeTaggedField(s: Schema, index: u32, ty: Type, v: Value, buf: Buffer)
    requires Compiles(s) && UnitsFit(s) && Scoped(s, ty) && Typed(s, ty, v)
    modifies buf
    ensures buf.data == old(buf.data) + EncField(s, index, ty, v)
    decreases v, 7
  {
    hide Compiles, UnitsFit, Enc, EncDelimited, Typed, Leb, Tag, EncField, EncPayload, WireType;
    FieldBytes(s, index, ty, v);
    var wireType := WireType(s, ty);
    Writing.EncodeTag(index, wireType, buf);
    ghost var tagged := buf.data;
    if wireType == BYTES {
      var tmpBuf := new Buffer();
      EncodeValueToBuf(s, ty, v, tmpBuf, true);
      var content := tmpBuf.data;
      assert content == EncDelimited(s, ty, v) by {
        assert [] + EncDelimited(s, ty, v) == EncDelimited(s, ty, v);
      }
      EncodeLeb128(|content|, buf);
      buf.Extend(content);
      assert buf.data == old(buf.data) + (Leb(Tag(index, wireType)) + (Leb(|content|) + content));
    } else {
      EncodeValueToBuf(s, ty, v, buf, false);
    }
  }
}
