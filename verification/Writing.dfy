/** The runtime's encoders as they run: appending to one buffer, patching lengths in place. */
module Writing {
  import opened Wire
  import opened Bits
  import opened Schema
  import opened Values
  import opened Leb128
  import opened Presence
  import opened Encoder

  /** `(index << 3) | wire_type` is the tag, for an index of u32 in a register of 64 bits. */
  lemma TagBits(index: u32, wireType: nat)
    requires wireType <= UNIT
    ensures Or(Shl(index, 3), wireType) == Tag(index, wireType)
  {
    hide Or, Shl, Pow2;
    OrLow(index, wireType);
    assert Shl(index, 3) == 8 * index by {
      ShlThree(index);
    }
  }

  lemma ShlThree(a: nat)
    ensures Shl(a, 3) == 8 * a
  {
    assert Shl(a, 1) == 2 * a;
    assert Shl(a, 2) == 4 * a;
  }

  lemma OrLow(a: nat, low: nat)
    requires low <= 7
    ensures Or(Shl(a, 3), low) == Shl(a, 3) + low
  {
    assert Pow2(1) == 2;
    assert Pow2(3) == 8;
    OrDisjoint(low, a, 3);
    OrCommutes(low, Shl(a, 3));
  }

  lemma {:induction false} OrCommutes(a: nat, b: nat)
    ensures Or(a, b) == Or(b, a)
    decreases a + b
  {
    if a != 0 && b != 0 {
      OrCommutes(a / 2, b / 2);
    }
  }

  method EncodeTag(index: u32, wireType: nat, buf: Buffer)
    requires wireType <= UNIT
    modifies buf
    ensures buf.data == old(buf.data) + Leb(Tag(index, wireType))
  {
    TagBits(index, wireType);
    EncodeLeb128(Or(Shl(index, 3), wireType), buf);
  }

  /** The standalone encoding of any value, appended to the buffer. */
  method EncodeValue(s: Schema, ty: Type, v: Value, buf: Buffer)
    requires Compiles(s) && Scoped(s, ty) && Typed(s, ty, v)
    modifies buf
    ensures buf.data == old(buf.data) + Enc(s, ty, v)
    decreases v, 4
  {
    hide Compiles, Leb, EncElems, EncEntries, EncItem, TypedItem, TypedElems, TypedEntries;
    match ty
    case Str =>
      EncodeLeb128(|v.utf8|, buf);
      buf.Extend(v.utf8);
    case Array(t) =>
      EncodeLeb128(|v.elems|, buf);
      EncodeElems(s, t, v.elems, buf);
    case Map(k, t) =>
      EncodeLeb128(|v.entries|, buf);
      EncodeEntries(s, k, t, v.entries, buf);
    case Named(n) => EncodeItem(s, Lookup(s, n).value, v, buf);
    case _ => EncodeScalar(s, ty, v, buf);
  }

  method EncodeScalar(s: Schema, ty: Type, v: Value, buf: Buffer)
    requires Compiles(s) && !ty.Str? && !ty.Array? && !ty.Map? && !ty.Named? && Typed(s, ty, v)
    modifies buf
    ensures buf.data == old(buf.data) + Enc(s, ty, v)
  {
    hide Compiles, Leb, ZigzagEncode;
    match ty
    case Bool => buf.Push(if v.b then 1 else 0);
    case U8 => buf.Push(v.n);
    case U16 => EncodeLeb128(v.n, buf);
    case U32 => EncodeLeb128(v.n, buf);
    case U64 => EncodeLeb128(v.n, buf);
    case I8 => buf.Push(I8Byte(v.i));
    case I16 => EncodeLeb128(ZigzagEncode(v.i), buf);
    case I32 => EncodeLeb128(ZigzagEncode(v.i), buf);
    case I64 => EncodeLeb128(ZigzagEncode(v.i), buf);
    case F32 => buf.Extend(v.raw);
    case F64 => buf.Extend(v.raw);
  }

  method EncodeElems(s: Schema, ty: Type, es: seq<Value>, buf: Buffer)
    requires Compiles(s) && Scoped(s, ty) && TypedElems(s, ty, es)
    modifies buf
    ensures buf.data == old(buf.data) + EncElems(s, ty, es)
    decreases es, 0
  {
    hide Compiles, Enc, Typed;
    for i := 0 to |es|
      invariant TypedElems(s, ty, es[i..])
      invariant buf.data + EncElems(s, ty, es[i..]) == old(buf.data) + EncElems(s, ty, es)
    {
      ghost var before := buf.data;
      ElemsTurn(s, ty, es[i..], before);
      assert es[i..][1..] == es[i + 1..];
      EncodeValue(s, ty, es[i], buf);
    }
  }

  lemma ElemsTurn(s: Schema, ty: Type, es: seq<Value>, before: bytes)
    requires Compiles(s) && Scoped(s, ty) && TypedElems(s, ty, es) && es != []
    ensures TypedElems(s, ty, es[1..]) && Typed(s, ty, es[0])
    ensures before + EncElems(s, ty, es) == (before + Enc(s, ty, es[0])) + EncElems(s, ty, es[1..])
  {
    hide Compiles, Enc, Typed;
  }

  /** The map in the iteration order of its HashMap: each key, then its value. */
  method EncodeEntries(s: Schema, k: Type, t: Type, es: seq<Entry>, buf: Buffer)
    requires Compiles(s) && Scoped(s, k) && Scoped(s, t) && TypedEntries(s, k, t, es)
    modifies buf
    ensures buf.data == old(buf.data) + EncEntries(s, k, t, es)
    decreases es, 0
  {
    hide Compiles, EncEntry, TypedEntry;
    for i := 0 to |es|
      invariant TypedEntries(s, k, t, es[i..])
      invariant buf.data + EncEntries(s, k, t, es[i..]) == old(buf.data) + EncEntries(s, k, t, es)
    {
      ghost var before := buf.data;
      EntriesTurn(s, k, t, es[i..], before);
      assert es[i..][1..] == es[i + 1..];
      EncodeEntry(s, k, t, es[i], buf);
    }
  }

  lemma EntriesTurn(s: Schema, k: Type, t: Type, es: seq<Entry>, before: bytes)
    requires Compiles(s) && Scoped(s, k) && Scoped(s, t) && TypedEntries(s, k, t, es) && es != []
    ensures TypedEntries(s, k, t, es[1..]) && TypedEntry(s, k, t, es[0])
    ensures before + EncEntries(s, k, t, es) == (before + EncEntry(s, k, t, es[0])) + EncEntries(s, k, t, es[1..])
  {
    hide Compiles, EncEntry, TypedEntry;
  }

  method EncodeEntry(s: Schema, k: Type, t: Type, e: Entry, buf: Buffer)
    requires Compiles(s) && Scoped(s, k) && Scoped(s, t) && TypedEntry(s, k, t, e)
    modifies buf
    ensures buf.data == old(buf.data) + EncEntry(s, k, t, e)
    decreases e, 0
  {
    hide Compiles, Enc, Typed;
    EncodeValue(s, k, e.key, buf);
    EncodeValue(s, t, e.value, buf);
  }

  method EncodeItem(s: Schema, it: Item, v: Value, buf: Buffer)
    requires Compiles(s) && ScopedIn(s, it) && TypedItem(s, it, v)
    modifies buf
    ensures buf.data == old(buf.data) + EncItem(s, it, v)
    decreases v, 3
  {
    assert ScopedItem(s, it);
    match it
    case StructItem(_, fs) =>
      hide Compiles, EncSlots, PresenceBits, TypedSlot;
      var flags := Flags(fs, v.slots);
      if HasOptional(fs) {
        EncodePresenceBits(flags, buf);
      } else {
        NoPresence(fs, v.slots);
      }
      EncodeSlots(s, fs, v.slots, buf);
    case MessageItem(_, fs) =>
      AllSendable(s, it);
      hide Compiles, EncFields, TypedFields, SortByIndex;
      EncodeFields(s, fs, SortByIndex(fs), v, buf);
      buf.Push(0);
    case EnumItem(_, _) => EncodeLeb128(v.index, buf);
    case UnionItem(_, vs) =>
      hide Compiles, EncVariant, TypedPayload;
      EncodeVariant(s, VariantAt(vs, v.tag).value, v.payload, buf);
  }

  lemma NoPresence(fields: seq<StructField>, slots: seq<Slot>)
    requires |fields| == |slots| && !HasOptional(fields)
    ensures PresenceBits(Flags(fields, slots)) == []
  {
  }

  /** Each declared field in turn, an absent optional writing nothing. */
  method EncodeSlots(s: Schema, fields: seq<StructField>, slots: seq<Slot>, buf: Buffer)
    requires Compiles(s) && (forall f <- fields :: Scoped(s, f.ty)) && TypedSlots(s, fields, slots)
    modifies buf
    ensures buf.data == old(buf.data) + EncSlots(s, fields, slots)
    decreases slots, 0
  {
    hide Compiles, EncSlots, EncSlot, TypedSlots, TypedSlot, Scoped;
    SlotsEnd(s, fields, slots);
    for i := 0 to |slots|
      invariant |fields| == |slots|
      invariant TypedSlots(s, fields[i..], slots[i..])
      invariant buf.data + EncSlots(s, fields[i..], slots[i..]) == old(buf.data) + EncSlots(s, fields, slots)
    {
      ghost var before := buf.data;
      SlotsTurn(s, fields[i..], slots[i..], before);
      assert slots[i..][1..] == slots[i + 1..] && fields[i..][1..] == fields[i + 1..];
      EncodeSlot(s, fields[i].ty, fields[i].optional, slots[i], buf);
    }
  }

  lemma SlotsEnd(s: Schema, fields: seq<StructField>, slots: seq<Slot>)
    requires Compiles(s) && (forall f <- fields :: Scoped(s, f.ty)) && TypedSlots(s, fields, slots)
    ensures |fields| == |slots| && fields[0..] == fields && slots[0..] == slots
    ensures fields[|slots|..] == [] && slots[|slots|..] == [] && TypedSlots(s, [], []) && EncSlots(s, [], []) == []
  {
    hide Compiles, TypedSlot;
  }

  lemma SlotsTurn(s: Schema, fields: seq<StructField>, slots: seq<Slot>, before: bytes)
    requires Compiles(s) && (forall f <- fields :: Scoped(s, f.ty)) && TypedSlots(s, fields, slots) && slots != []
    ensures fields != [] && TypedSlots(s, fields[1..], slots[1..]) &&
      TypedSlot(s, fields[0].ty, fields[0].optional, slots[0])
    ensures before + EncSlots(s, fields, slots) ==
      (before + EncSlot(s, fields[0].ty, fields[0].optional, slots[0])) + EncSlots(s, fields[1..], slots[1..])
  {
    hide Compiles, EncSlot, TypedSlot;
  }

  method EncodeSlot(s: Schema, ty: Type, optional: bool, slot: Slot, buf: Buffer)
    requires Compiles(s) && Scoped(s, ty) && TypedSlot(s, ty, optional, slot)
    modifies buf
    ensures buf.data == old(buf.data) + EncSlot(s, ty, optional, slot)
    decreases slot, 1
  {
    hide Compiles, Enc, Typed;
    if slot.Present? {
      EncodeValue(s, ty, slot.value, buf);
    }
  }

  /** The fields of a message in the given order, each tagged, absent optionals left out. */
  method EncodeFields(s: Schema, fields: seq<MessageField>, order: seq<MessageField>, v: Value, buf: Buffer)
    requires Compiles(s) && v.VMsg? && TypedFields(s, fields, v) && Sendable(s, fields, order)
    modifies buf
    ensures buf.data == old(buf.data) + EncFields(s, fields, order, v)
    decreases v, 2, |order|
  {
    hide Compiles, EncSent, TypedFields, FieldAt, Scoped;
    for i := 0 to |order|
      invariant Sendable(s, fields, order[i..])
      invariant buf.data + EncFields(s, fields, order[i..], v) == old(buf.data) + EncFields(s, fields, order, v)
    {
      ghost var before := buf.data;
      FieldsTurn(s, fields, order[i..], v, before);
      assert order[i..][1..] == order[i + 1..];
      EncodeSent(s, fields, order[i], v, buf);
    }
  }

  lemma FieldsTurn(s: Schema, fields: seq<MessageField>, order: seq<MessageField>, v: Value, before: bytes)
    requires Compiles(s) && v.VMsg? && TypedFields(s, fields, v) && Sendable(s, fields, order) && order != []
    ensures Sendable(s, fields, order[1..]) && FieldAt(fields, order[0].index) == Some(order[0]) &&
      Scoped(s, order[0].ty)
    ensures before + EncFields(s, fields, order, v) ==
      (before + EncSent(s, fields, order[0], v)) + EncFields(s, fields, order[1..], v)
  {
    hide Compiles, EncSent, TypedFields, FieldAt, Scoped;
  }

  method EncodeSent(s: Schema, fields: seq<MessageField>, f: MessageField, v: Value, buf: Buffer)
    requires Compiles(s) && v.VMsg? && TypedFields(s, fields, v) && FieldAt(fields, f.index) == Some(f) &&
      Scoped(s, f.ty)
    modifies buf
    ensures buf.data == old(buf.data) + EncSent(s, fields, f, v)
    decreases v, 1
  {
    hide Compiles, EncField, Typed;
    if f.index in v.fields {
      EncodeField(s, f.index, f.ty, v.fields[f.index], buf);
    }
  }

  method EncodeVariant(s: Schema, variant: UnionVariant, payload: Slot, buf: Buffer)
    requires Compiles(s) && (variant.ty.Some? ==> Scoped(s, variant.ty.value)) && TypedPayload(s, variant.ty, payload)
    modifies buf
    ensures buf.data == old(buf.data) + EncVariant(s, variant, payload)
    decreases payload, 1
  {
    hide Compiles, EncField, Typed, Leb;
    match variant.ty
    case None => EncodeLeb128(UnitTag(variant.index), buf);
    case Some(t) => EncodeField(s, variant.index, t, payload.value, buf);
  }

  /** The byte at `start` gives way to the length of all that follows it; a long one makes the content move. */
  method PatchLength(start: nat, buf: Buffer)
    requires start < |buf.data|
    modifies buf
    ensures var content := old(buf.data)[start + 1..];
      buf.data == old(buf.data)[..start] + Leb(|content|) + content
  {
    var len := |buf.data| - start - 1;
    if len < 128 {
      buf.data := buf.data[start := len];
      assert Leb(len) == [len];
    } else {
      var data := buf.data[start + 1..];
      buf.data := buf.data[..start];
      EncodeLeb128(len, buf);
      buf.Extend(data);
    }
  }

  /**
   * A tagged value. For BYTES one byte is reserved for the length and patched once the content is
   * there. Whatever the buffer held before stays, and what follows is the tag, the length and the
   * content.
   */
  method EncodeField(s: Schema, index: u32, ty: Type, v: Value, buf: Buffer)
    requires Compiles(s) && Scoped(s, ty) && Typed(s, ty, v)
    modifies buf
    ensures buf.data == old(buf.data) + EncField(s, index, ty, v)
    ensures WireType(s, ty) == BYTES ==>
      var content := EncDelimited(s, ty, v);
      buf.data == old(buf.data) + Leb(Tag(index, BYTES)) + Leb(|content|) + content
    decreases v, 7
  {
    hide Compiles, Enc, EncDelimited, Typed;
    var wireType := WireType(s, ty);
    EncodeTag(index, wireType, buf);
    ghost var tagged := buf.data;
    if wireType == BYTES {
      hide Leb;
      var start := |buf.data|;
      buf.Push(0);
      EncodeDelimited(s, ty, v, buf);
      ghost var content := EncDelimited(s, ty, v);
      assert buf.data[..start] == tagged && buf.data[start + 1..] == content;
      PatchLength(start, buf);
      assert old(buf.data) + Leb(Tag(index, BYTES)) + Leb(|content|) + content ==
        old(buf.data) + (Leb(Tag(index, BYTES)) + (Leb(|content|) + content));
    } else {
      EncodeValue(s, ty, v, buf);
    }
  }

  /** The content of a BYTES field: a count only where the length does not give it away. */
  method EncodeDelimited(s: Schema, ty: Type, v: Value, buf: Buffer)
    requires Compiles(s) && Scoped(s, ty) && Typed(s, ty, v)
    modifies buf
    ensures buf.data == old(buf.data) + EncDelimited(s, ty, v)
    decreases v, 5
  {
    hide Compiles, Leb, EncElems, EncEntries, EncItem, FixedSize, EntrySize, TypedElems, TypedEntries;
    hide DistinctKeys, TypedItem;
    match ty
    case Str =>
      buf.Extend(v.utf8);
    case Array(t) =>
      if FixedSize(s, t).None? {
        EncodeLeb128(|v.elems|, buf);
      }
      EncodeElems(s, t, v.elems, buf);
    case Map(k, t) =>
      if EntrySize(s, k, t).None? {
        EncodeLeb128(|v.entries|, buf);
      }
      EncodeEntries(s, k, t, v.entries, buf);
    case _ => EncodeValue(s, ty, v, buf);
  }
}
