/**
 * Schema evolution: what a reader with a newer or older schema makes of a writer's bytes.
 * The round trip is the case of one schema on both sides.
 */
module Compatibility {
  import opened Wire
  import opened Schema
  import opened Values
  import opened Leb128
  import opened Presence
  import opened Encoder
  import opened Decoder

  // ---------------------------------------------------------------- which schemas may talk

  /** Struct layouts are frozen; shared message indices keep their type; readers may know more variants. */
  ghost predicate CompatibleItem(w: Item, r: Item)
  {
    match w
    case StructItem(_, fs) =>
      r.StructItem? && |fs| == |r.sfields| &&
      forall i :: 0 <= i < |fs| ==> fs[i].ty == r.sfields[i].ty && fs[i].optional == r.sfields[i].optional
    case MessageItem(_, fs) =>
      r.MessageItem? && forall f <- fs, g <- r.mfields :: f.index == g.index ==> f.ty == g.ty
    case EnumItem(_, vs) => r.EnumItem? && forall v <- vs :: HasVariant(r.evariants, v.index)
    case UnionItem(_, vs) =>
      r.UnionItem? &&
      forall v <- vs :: VariantAt(r.uvariants, v.index).Some? && VariantAt(r.uvariants, v.index).value.ty == v.ty
    case ServiceItem(_, _) => true
  }

  /** Every item both schemas define is compatible. Items only one of them defines are free. */
  ghost predicate Evolves(w: Schema, r: Schema)
  {
    forall n {:trigger Lookup(w, n)} ::
      Lookup(w, n).Some? && Lookup(r, n).Some? ==> CompatibleItem(Lookup(w, n).value, Lookup(r, n).value)
  }

  /** The decoder can recover the number of elements from their total length. */
  predicate Countable(s: Schema, ty: Type)
    requires Compiles(s) && Scoped(s, ty)
  {
    match ty
    case Array(t) => FixedSize(s, t) != Some(0)
    case Map(k, t) => EntrySize(s, k, t) != Some(0)
    case _ => true
  }

  predicate CodableItem(s: Schema, it: Item)
    requires Compiles(s) && ScopedItem(s, it)
  {
    match it
    case MessageItem(_, fs) => forall f <- fs :: Countable(s, f.ty)
    case UnionItem(_, vs) => forall v <- vs :: if v.ty.None? then v.index < 0x2000_0000 else Countable(s, v.ty.value)
    case _ => true
  }

  /**
   * The two limits of the format: no field holds a bare array or map of zero-byte elements, and
   * the tags of unit variants fit the u32 they are computed in.
   */
  predicate Codable(s: Schema)
    requires Compiles(s)
  {
    forall it <- s :: CodableItem(s, it)
  }

  ghost predicate MayTalk(w: Schema, r: Schema)
  {
    Compiles(w) && Compiles(r) && Evolves(w, r)
  }

  // ---------------------------------------------------------------- which values can be read

  /**
   * Within the value, nothing the reader decodes runs into either limit: message fields it does not
   * know are skipped and may hold anything.
   */
  ghost predicate Legible(w: Schema, r: Schema, ty: Type, v: Value)
    requires Compiles(w) && Scoped(w, ty)
    decreases v, 3
  {
    match ty
    case Array(t) => v.VArr? ==> LegibleElems(w, r, t, v.elems)
    case Map(k, t) => v.VMap? ==> LegibleEntries(w, r, k, t, v.entries)
    case Named(n) => LegibleItem(w, r, n, v)
    case _ => true
  }

  ghost predicate LegibleElems(w: Schema, r: Schema, ty: Type, es: seq<Value>)
    requires Compiles(w) && Scoped(w, ty)
    decreases es, 0
  {
    forall e <- es :: Legible(w, r, ty, e)
  }

  ghost predicate LegibleEntries(w: Schema, r: Schema, k: Type, t: Type, es: seq<Entry>)
    requires Compiles(w) && Scoped(w, k) && Scoped(w, t)
    decreases es, 0
  {
    forall e <- es :: LegibleEntry(w, r, k, t, e)
  }

  ghost predicate LegibleEntry(w: Schema, r: Schema, k: Type, t: Type, e: Entry)
    requires Compiles(w) && Scoped(w, k) && Scoped(w, t)
    decreases e, 0
  {
    Legible(w, r, k, e.key) && Legible(w, r, t, e.value)
  }

  ghost predicate LegibleItem(w: Schema, r: Schema, n: string, v: Value)
    requires Compiles(w) && Scoped(w, Named(n))
    decreases v, 2
  {
    var it := Lookup(w, n).value;
    assert ScopedItem(w, it);
    match it
    case StructItem(_, fs) => v.VStruct? && |v.slots| == |fs| ==> LegibleSlots(w, r, fs, v.slots)
    case MessageItem(_, fs) => v.VMsg? ==> LegibleFields(w, r, fs, MessageFields(r, n), v)
    case EnumItem(_, _) => true
    case UnionItem(_, vs) =>
      v.VUnion? && VariantAt(vs, v.tag).Some? ==> LegiblePayload(w, r, VariantAt(vs, v.tag).value, v.payload)
  }

  function MessageFields(s: Schema, n: string): seq<MessageField>
  {
    if Lookup(s, n).Some? && Lookup(s, n).value.MessageItem? then Lookup(s, n).value.mfields else []
  }

  ghost predicate LegibleSlots(w: Schema, r: Schema, fs: seq<StructField>, slots: seq<Slot>)
    requires Compiles(w) && (forall f <- fs :: Scoped(w, f.ty)) && |fs| == |slots|
    decreases slots, 0
  {
    forall i :: 0 <= i < |slots| ==> LegibleSlot(w, r, fs[i].ty, slots[i])
  }

  ghost predicate LegibleSlot(w: Schema, r: Schema, ty: Type, slot: Slot)
    requires Compiles(w) && Scoped(w, ty)
    decreases slot, 1
  {
    slot.Present? ==> Legible(w, r, ty, slot.value)
  }

  ghost predicate LegibleFields(w: Schema, r: Schema, fs: seq<MessageField>, rf: seq<MessageField>, v: Value)
    requires Compiles(w) && (forall f <- fs :: Scoped(w, f.ty)) && v.VMsg?
    decreases v, 1
  {
    forall i <- v.fields :: FieldAt(fs, i).Some? && FieldAt(rf, i).Some? ==>
      LegibleField(w, r, FieldAt(fs, i).value.ty, v.fields[i])
  }

  ghost predicate LegiblePayload(w: Schema, r: Schema, variant: UnionVariant, payload: Slot)
    requires Compiles(w) && (variant.ty.Some? ==> Scoped(w, variant.ty.value))
    decreases payload, 1
  {
    if variant.ty.None? then variant.index < 0x2000_0000
    else payload.Present? ==> LegibleField(w, r, variant.ty.value, payload.value)
  }

  ghost predicate LegibleField(w: Schema, r: Schema, ty: Type, v: Value)
    requires Compiles(w) && Scoped(w, ty)
    decreases v, 4
  {
    Countable(w, ty) && Legible(w, r, ty, v)
  }

  // ---------------------------------------------------------------- codable schemas

  /** Every value of a schema within the limits is legible to everyone. */
  lemma {:induction false} CodableIsLegible(w: Schema, r: Schema, ty: Type, v: Value)
    requires Compiles(w) && Codable(w) && Scoped(w, ty)
    ensures Legible(w, r, ty, v)
    decreases v, 3
  {
    match ty
    case Array(t) =>
      if v.VArr? {
        forall e <- v.elems ensures Legible(w, r, t, e) {
          CodableIsLegible(w, r, t, e);
        }
      }
    case Map(k, t) =>
      if v.VMap? {
        forall e <- v.entries ensures LegibleEntry(w, r, k, t, e) {
          CodableEntry(w, r, k, t, e);
        }
      }
    case Named(n) => CodableItemLegible(w, r, n, v);
    case _ =>
  }

  lemma {:induction false} CodableEntry(w: Schema, r: Schema, k: Type, t: Type, e: Entry)
    requires Compiles(w) && Codable(w) && Scoped(w, k) && Scoped(w, t)
    ensures LegibleEntry(w, r, k, t, e)
    decreases e, 0
  {
    hide Compiles, Codable, Legible, Scoped;
    CodableIsLegible(w, r, k, e.key);
    CodableIsLegible(w, r, t, e.value);
  }

  lemma {:induction false} CodableItemLegible(w: Schema, r: Schema, n: string, v: Value)
    requires Compiles(w) && Codable(w) && Scoped(w, Named(n))
    ensures LegibleItem(w, r, n, v)
    decreases v, 2
  {
    var it := Lookup(w, n).value;
    assert ScopedItem(w, it) && CodableItem(w, it);
    hide Compiles, Codable, Legible, Countable;
    match it
    case StructItem(_, fs) =>
      if v.VStruct? && |v.slots| == |fs| {
        forall i | 0 <= i < |fs| ensures LegibleSlot(w, r, fs[i].ty, v.slots[i]) {
          CodableSlot(w, r, fs[i].ty, v.slots[i]);
        }
      }
    case MessageItem(_, fs) =>
      if v.VMsg? {
        forall i <- v.fields | FieldAt(fs, i).Some? ensures LegibleField(w, r, FieldAt(fs, i).value.ty, v.fields[i]) {
          assert FieldAt(fs, i).value in fs;
          CodableIsLegible(w, r, FieldAt(fs, i).value.ty, v.fields[i]);
        }
      }
    case EnumItem(_, _) =>
    case UnionItem(_, vs) =>
      if v.VUnion? && VariantAt(vs, v.tag).Some? {
        assert VariantAt(vs, v.tag).value in vs;
        CodablePayload(w, r, VariantAt(vs, v.tag).value, v.payload);
      }
  }

  lemma {:induction false} CodableSlot(w: Schema, r: Schema, ty: Type, slot: Slot)
    requires Compiles(w) && Codable(w) && Scoped(w, ty)
    ensures LegibleSlot(w, r, ty, slot)
    decreases slot, 1
  {
    hide Compiles, Codable, Legible, Scoped;
    if slot.Present? {
      CodableIsLegible(w, r, ty, slot.value);
    }
  }

  lemma {:induction false} CodablePayload(w: Schema, r: Schema, variant: UnionVariant, payload: Slot)
    requires Compiles(w) && Codable(w) && (variant.ty.Some? ==> Scoped(w, variant.ty.value))
    requires if variant.ty.None? then variant.index < 0x2000_0000 else Countable(w, variant.ty.value)
    ensures LegiblePayload(w, r, variant, payload)
    decreases payload, 1
  {
    hide Compiles, Codable, Legible, Scoped, Countable;
    if variant.ty.Some? && payload.Present? {
      CodableIsLegible(w, r, variant.ty.value, payload.value);
    }
  }

  // ---------------------------------------------------------------- the value the reader sees

  /** The reader's view of a value: unknown fields dropped, missing required ones at their default. */
  function Project(r: Schema, ty: Type, v: Value): Value
    requires Compiles(r) && Scoped(r, ty)
    decreases v, 3
  {
    match ty
    case Array(t) => if v.VArr? then VArr(ProjectElems(r, t, v.elems)) else v
    case Map(k, t) => if v.VMap? then VMap(Collect(ProjectEntries(r, k, t, v.entries), [])) else v
    case Named(n) => ProjectItem(r, n, v)
    case _ => v
  }

  function ProjectElems(r: Schema, ty: Type, es: seq<Value>): (res: seq<Value>)
    requires Compiles(r) && Scoped(r, ty)
    ensures |res| == |es|
    decreases es, 0
  {
    if es == [] then [] else [Project(r, ty, es[0])] + ProjectElems(r, ty, es[1..])
  }

  function ProjectEntries(r: Schema, k: Type, t: Type, es: seq<Entry>): (res: seq<Entry>)
    requires Compiles(r) && Scoped(r, k) && Scoped(r, t)
    ensures |res| == |es|
    decreases es, 0
  {
    if es == [] then [] else [ProjectEntry(r, k, t, es[0])] + ProjectEntries(r, k, t, es[1..])
  }

  function ProjectEntry(r: Schema, k: Type, t: Type, e: Entry): Entry
    requires Compiles(r) && Scoped(r, k) && Scoped(r, t)
    decreases e, 0
  {
    Entry(Project(r, k, e.key), Project(r, t, e.value))
  }

  /** Inserting entries one by one: projected keys may collide, and then the last value wins. */
  function Collect(es: seq<Entry>, acc: seq<Entry>): seq<Entry>
  {
    if es == [] then acc else Collect(es[1..], InsertEntry(acc, es[0].key, es[0].value))
  }

  function ProjectItem(r: Schema, n: string, v: Value): Value
    requires Compiles(r) && Scoped(r, Named(n))
    decreases v, 2
  {
    var it := Lookup(r, n).value;
    assert ScopedItem(r, it);
    match it
    case StructItem(_, fs) => if v.VStruct? && |v.slots| == |fs| then VStruct(ProjectSlots(r, fs, v.slots)) else v
    case MessageItem(_, fs) => if v.VMsg? then VMsg(ProjectFields(r, n, v)) else v
    case EnumItem(_, _) => v
    case UnionItem(_, vs) =>
      if v.VUnion? && VariantAt(vs, v.tag).Some? && VariantAt(vs, v.tag).value.ty.Some? then
        VUnion(v.tag, ProjectSlot(r, VariantAt(vs, v.tag).value.ty.value, v.payload))
      else v
  }

  function ProjectSlot(r: Schema, ty: Type, slot: Slot): Slot
    requires Compiles(r) && Scoped(r, ty)
    decreases slot, 1
  {
    if slot.Present? then Present(Project(r, ty, slot.value)) else Absent
  }

  function ProjectSlots(r: Schema, fs: seq<StructField>, slots: seq<Slot>): (res: seq<Slot>)
    requires Compiles(r) && (forall f <- fs :: Scoped(r, f.ty)) && |fs| == |slots|
    ensures |res| == |slots|
    decreases slots, 0
  {
    if slots == [] then [] else [ProjectSlot(r, fs[0].ty, slots[0])] + ProjectSlots(r, fs[1..], slots[1..])
  }

  function FieldType(fs: seq<MessageField>, i: nat): Type
    requires i in Indices(fs)
  {
    FieldAt(fs, i).value.ty
  }

  /** Field by field: the writer's value if it sent one, else the default of a required field. */
  function ProjectFields(r: Schema, n: string, v: Value): map<nat, Value>
    requires Compiles(r) && Scoped(r, Named(n)) && Lookup(r, n).value.MessageItem? && v.VMsg?
    decreases v, 1
  {
    var fs := Lookup(r, n).value.mfields;
    assert ScopedItem(r, Lookup(r, n).value);
    map i | i in Indices(fs) && (i in v.fields || i in DefaultFields(r, n)) ::
      if i in v.fields then Project(r, FieldType(fs, i), v.fields[i]) else DefaultFields(r, n)[i]
  }
}
