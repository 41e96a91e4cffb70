/** What the generated Rust encoders write: a value of a schema type as bytes. */
module Encoder {
  import opened Wire
  import opened Schema
  import opened Values
  import opened Leb128
  import opened Presence

  // ---------------------------------------------------------------- order of message fields

  function Insert(f: MessageField, fs: seq<MessageField>): (r: seq<MessageField>)
    ensures forall g :: g in r <==> g == f || g in fs
  {
    if fs == [] || f.index <= fs[0].index then [f] + fs else [fs[0]] + Insert(f, fs[1..])
  }

  /** `sort_by_key(|f| f.index)`, a stable sort. */
  function SortByIndex(fs: seq<MessageField>): (r: seq<MessageField>)
    ensures forall g :: g in r <==> g in fs
  {
    if fs == [] then [] else Insert(fs[0], SortByIndex(fs[1..]))
  }

  // ---------------------------------------------------------------- encodings

  /** The tag of a message field or of a union variant with a payload; computed in u64. */
  function Tag(index: u32, wireType: nat): nat
    requires wireType <= UNIT
  {
    index * 8 + wireType
  }

  /** The tag of a unit variant; the code generator computes `(index << 3) | 7` in u32. */
  function UnitTag(index: u32): nat
  {
    index * 8 % TWO_32 + UNIT
  }

  function Flags(fields: seq<StructField>, slots: seq<Slot>): (r: seq<bool>)
    requires |fields| == |slots|
    ensures |r| == CountOptional(fields)
  {
    if fields == [] then []
    else (if fields[0].optional then [slots[0].Present?] else []) + Flags(fields[1..], slots[1..])
  }

  function CountOptional(fields: seq<StructField>): nat
  {
    if fields == [] then 0 else (if fields[0].optional then 1 else 0) + CountOptional(fields[1..])
  }

  function I8Byte(i: int): byte
    requires -128 <= i < 128
  {
    if i < 0 then i + 256 else i
  }

  /** The standalone, self-describing encoding. */
  function Enc(s: Schema, ty: Type, v: Value): bytes
    requires Compiles(s) && Scoped(s, ty) && Typed(s, ty, v)
    decreases v, 4
  {
    match ty
    case Bool => if v.b then [1] else [0]
    case U8 => [v.n]
    case U16 => Leb(v.n)
    case U32 => Leb(v.n)
    case U64 => Leb(v.n)
    case I8 => [I8Byte(v.i)]
    case I16 => Leb(ZigzagEncode(v.i))
    case I32 => Leb(ZigzagEncode(v.i))
    case I64 => Leb(ZigzagEncode(v.i))
    case F32 => v.raw
    case F64 => v.raw
    case Str => Leb(|v.utf8|) + v.utf8
    case Array(t) => Leb(|v.elems|) + EncElems(s, t, v.elems)
    case Map(k, t) => Leb(|v.entries|) + EncEntries(s, k, t, v.entries)
    case Named(n) => EncItem(s, Lookup(s, n).value, v)
  }

  predicate ScopedIn(s: Schema, it: Item)
  {
    it in s && Lookup(s, it.name) == Some(it) && !it.ServiceItem?
  }

  function EncItem(s: Schema, it: Item, v: Value): bytes
    requires Compiles(s) && ScopedIn(s, it) && TypedItem(s, it, v)
    decreases v, 3
  {
    assert ScopedItem(s, it);
    match it
    case StructItem(_, fs) =>
      assert TypedSlots(s, fs, v.slots);
      PresenceBits(Flags(fs, v.slots)) + EncSlots(s, fs, v.slots)
    case MessageItem(_, fs) => 
      AllSendable(s, it);
      EncFields(s, fs, SortByIndex(fs), v) + [0]
    case EnumItem(_, _) => Leb(v.index)
    case UnionItem(_, vs) => EncVariant(s, VariantAt(vs, v.tag).value, v.payload)
  }

  function EncVariant(s: Schema, variant: UnionVariant, payload: Slot): bytes
    requires Compiles(s) && (variant.ty.Some? ==> Scoped(s, variant.ty.value)) && TypedPayload(s, variant.ty, payload)
    decreases payload, 1
  {
    match variant.ty
    case None => Leb(UnitTag(variant.index))
    case Some(t) => EncField(s, variant.index, t, payload.value)
  }

  function EncElems(s: Schema, ty: Type, es: seq<Value>): bytes
    requires Compiles(s) && Scoped(s, ty) && TypedElems(s, ty, es)
    decreases es, 0
  {
    if es == [] then [] else Enc(s, ty, es[0]) + EncElems(s, ty, es[1..])
  }

  function EncEntries(s: Schema, k: Type, t: Type, es: seq<Entry>): bytes
    requires Compiles(s) && Scoped(s, k) && Scoped(s, t) && TypedEntries(s, k, t, es)
    decreases es, 0
  {
    if es == [] then [] else EncEntry(s, k, t, es[0]) + EncEntries(s, k, t, es[1..])
  }

  function EncEntry(s: Schema, k: Type, t: Type, e: Entry): bytes
    requires Compiles(s) && Scoped(s, k) && Scoped(s, t) && TypedEntry(s, k, t, e)
    decreases e, 0
  {
    Enc(s, k, e.key) + Enc(s, t, e.value)
  }

  /** Struct fields in declaration order, without tags; absent optionals take no bytes. */
  function EncSlots(s: Schema, fields: seq<StructField>, slots: seq<Slot>): bytes
    requires Compiles(s) && (forall f <- fields :: Scoped(s, f.ty)) && TypedSlots(s, fields, slots)
    decreases slots, 0
  {
    if slots == [] then []
    else EncSlot(s, fields[0].ty, fields[0].optional, slots[0]) + EncSlots(s, fields[1..], slots[1..])
  }

  function EncSlot(s: Schema, ty: Type, optional: bool, slot: Slot): bytes
    requires Compiles(s) && Scoped(s, ty) && TypedSlot(s, ty, optional, slot)
    decreases slot, 1
  {
    match slot
    case Absent => []
    case Present(v) => Enc(s, ty, v)
  }

  /** The message fields listed in `order`, each with its tag, skipping absent optionals. */
  function EncFields(s: Schema, fields: seq<MessageField>, order: seq<MessageField>, v: Value): bytes
    requires Compiles(s) && v.VMsg? && TypedFields(s, fields, v) && Sendable(s, fields, order)
    decreases v, 2, |order|
  {
    if order == [] then [] else EncSent(s, fields, order[0], v) + EncFields(s, fields, order[1..], v)
  }

  function EncSent(s: Schema, fields: seq<MessageField>, f: MessageField, v: Value): bytes
    requires Compiles(s) && v.VMsg? && TypedFields(s, fields, v) && FieldAt(fields, f.index) == Some(f) &&
      Scoped(s, f.ty)
    decreases v, 1
  {
    if f.index in v.fields then EncField(s, f.index, f.ty, v.fields[f.index]) else []
  }

  /** Fields that are the first of their index, with scoped types. */
  predicate Sendable(s: Schema, fields: seq<MessageField>, order: seq<MessageField>)
  {
    forall f <- order :: FieldAt(fields, f.index) == Some(f) && Scoped(s, f.ty)
  }

  lemma AllSendable(s: Schema, it: Item)
    requires Compiles(s) && it in s && it.MessageItem?
    ensures Sendable(s, it.mfields, SortByIndex(it.mfields))
  {
    assert Numbered(it) && ScopedItem(s, it);
    forall f <- SortByIndex(it.mfields) ensures FieldAt(it.mfields, f.index) == Some(f) {
      FieldAtUnique(it.mfields, f);
    }
  }

  /** A tagged value. */
  function EncField(s: Schema, index: u32, ty: Type, v: Value): bytes
    requires Compiles(s) && Scoped(s, ty) && Typed(s, ty, v)
    decreases v, 7
  {
    Leb(Tag(index, WireType(s, ty))) + EncPayload(s, ty, v)
  }

  /** What follows the tag: BYTES payloads carry their length, and then need no count of their own. */
  function EncPayload(s: Schema, ty: Type, v: Value): bytes
    requires Compiles(s) && Scoped(s, ty) && Typed(s, ty, v)
    decreases v, 6
  {
    if WireType(s, ty) == BYTES then
      var content := EncDelimited(s, ty, v);
      Leb(|content|) + content
    else Enc(s, ty, v)
  }

  function EncDelimited(s: Schema, ty: Type, v: Value): bytes
    requires Compiles(s) && Scoped(s, ty) && Typed(s, ty, v)
    decreases v, 5
  {
    match ty
    case Str => v.utf8
    case Array(t) =>
      (if FixedSize(s, t).Some? then [] else Leb(|v.elems|)) + EncElems(s, t, v.elems)
    case Map(k, t) =>
      (if EntrySize(s, k, t).Some? then [] else Leb(|v.entries|)) + EncEntries(s, k, t, v.entries)
    case _ => Enc(s, ty, v)
  }

  function EntrySize(s: Schema, k: Type, t: Type): Option<nat>
    requires Compiles(s) && Scoped(s, k) && Scoped(s, t)
  {
    var a, b := FixedSize(s, k), FixedSize(s, t);
    if a.Some? && b.Some? then Some(a.value + b.value) else None
  }

  /** The first element of an array, and the others. */
  lemma ElemsCons(s: Schema, ty: Type, es: seq<Value>)
    requires Compiles(s) && Scoped(s, ty) && TypedElems(s, ty, es) && es != []
    ensures Typed(s, ty, es[0]) && TypedElems(s, ty, es[1..])
    ensures EncElems(s, ty, es) == Enc(s, ty, es[0]) + EncElems(s, ty, es[1..])
  {
    hide Compiles, Enc, Typed, Scoped;
  }

  /** The first entry of a map, and the others. */
  lemma EntriesCons(s: Schema, k: Type, t: Type, es: seq<Entry>)
    requires Compiles(s) && Scoped(s, k) && Scoped(s, t) && TypedEntries(s, k, t, es) && es != []
    ensures TypedEntry(s, k, t, es[0]) && TypedEntries(s, k, t, es[1..])
    ensures EncEntries(s, k, t, es) == EncEntry(s, k, t, es[0]) + EncEntries(s, k, t, es[1..])
  {
    hide Compiles, EncEntry, TypedEntry, Scoped;
  }

  lemma EntriesNil(s: Schema, k: Type, t: Type)
    requires Compiles(s) && Scoped(s, k) && Scoped(s, t)
    ensures TypedEntries(s, k, t, []) && EncEntries(s, k, t, []) == []
  {
    hide Compiles, EncEntry, TypedEntry, Scoped;
  }

  lemma EntriesJoin(s: Schema, k: Type, t: Type, es: seq<Entry>)
    requires es != [] && TypedEntry(s, k, t, es[0]) && TypedEntries(s, k, t, es[1..])
    ensures TypedEntries(s, k, t, es)
  {
    hide TypedEntry;
    forall e <- es ensures TypedEntry(s, k, t, e) {
      assert e == es[0] || e in es[1..];
    }
  }

  /** The first field of a message, and everything after it. */
  lemma FieldsCons(s: Schema, fields: seq<MessageField>, order: seq<MessageField>, v: Value, tail: bytes)
    requires Compiles(s) && v.VMsg? && TypedFields(s, fields, v) && Sendable(s, fields, order) && order != []
    ensures EncFields(s, fields, order, v) + tail ==
      EncSent(s, fields, order[0], v) + (EncFields(s, fields, order[1..], v) + tail)
  {
    hide EncSent, EncField, TypedFields, Compiles;
    assert forall a: bytes, b: bytes :: (a + b) + tail == a + (b + tail);
  }
}
