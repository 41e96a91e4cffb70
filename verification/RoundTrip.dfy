/** Encoding then decoding under one schema gives the value back, and exactly when it does not. */
module RoundTrip {
  import opened Wire
  import opened Schema
  import opened Values
  import opened Leb128
  import opened Encoder
  import opened Decoder
  import opened Compatibility
  import opened Evolution
  import opened Panics
  import Skipping

  // ---------------------------------------------------------------- a schema talks to itself

  lemma SelfCompatible(it: Item)
    requires Numbered(it)
    ensures CompatibleItem(it, it)
  {
    match it
    case MessageItem(_, fs) =>
      forall f <- fs, g <- fs | f.index == g.index ensures f == g {
        FieldAtUnique(fs, f);
        FieldAtUnique(fs, g);
      }
    case UnionItem(_, vs) =>
      forall v <- vs ensures VariantAt(vs, v.index) == Some(v) {
        VariantAtUnique(vs, v);
      }
    case _ =>
  }

  lemma SelfTalk(s: Schema)
    requires Compiles(s)
    ensures MayTalk(s, s)
  {
    forall n {:trigger Lookup(s, n)} | Lookup(s, n).Some?
      ensures CompatibleItem(Lookup(s, n).value, Lookup(s, n).value)
    {
      assert Numbered(Lookup(s, n).value);
      SelfCompatible(Lookup(s, n).value);
    }
  }

  // ---------------------------------------------------------------- projecting to one's own schema

  /** Nothing is lost or added when the reader has the writer's schema. */
  lemma {:induction false} ProjectIdentity(s: Schema, ty: Type, v: Value)
    requires Compiles(s) && Scoped(s, ty) && Typed(s, ty, v)
    ensures Project(s, ty, v) == v
    decreases v, 3
  {
    match ty
    case Array(t) => ElemsIdentity(s, t, v.elems);
    case Map(k, t) => EntriesIdentity(s, k, t, v.entries); CollectDistinct(v.entries, []);
    case Named(n) => ItemIdentity(s, n, v);
    case _ =>
  }

  lemma {:induction false} ElemsIdentity(s: Schema, ty: Type, es: seq<Value>)
    requires Compiles(s) && Scoped(s, ty) && TypedElems(s, ty, es)
    ensures ProjectElems(s, ty, es) == es
    decreases es, 0
  {
    hide Compiles, Project, Typed;
    if es != [] {
      ProjectIdentity(s, ty, es[0]);
      ElemsIdentity(s, ty, es[1..]);
    }
  }

  lemma {:induction false} EntriesIdentity(s: Schema, k: Type, t: Type, es: seq<Entry>)
    requires Compiles(s) && Scoped(s, k) && Scoped(s, t) && TypedEntries(s, k, t, es)
    ensures ProjectEntries(s, k, t, es) == es
    decreases es, 0
  {
    hide Compiles, ProjectEntry, TypedEntry, TypedEntries, EncEntries, Scoped;
    if es != [] {
      EntriesCons(s, k, t, es);
      EntryIdentity(s, k, t, es[0]);
      EntriesIdentity(s, k, t, es[1..]);
    }
  }

  lemma {:induction false} EntryIdentity(s: Schema, k: Type, t: Type, e: Entry)
    requires Compiles(s) && Scoped(s, k) && Scoped(s, t) && TypedEntry(s, k, t, e)
    ensures ProjectEntry(s, k, t, e) == e
    decreases e, 0
  {
    hide Compiles, Project;
    ProjectIdentity(s, k, e.key);
    ProjectIdentity(s, t, e.value);
  }

  /** Inserting entries with fresh, distinct keys appends them in order. */
  lemma {:induction false} CollectDistinct(es: seq<Entry>, acc: seq<Entry>)
    requires DistinctKeys(es) && forall a <- acc, e <- es :: a.key != e.key
    ensures Collect(es, acc) == acc + es
    decreases |es|
  {
    if es != [] {
      InsertFresh(acc, es[0].key, es[0].value);
      assert es[0] == Entry(es[0].key, es[0].value);
      CollectDistinct(es[1..], acc + [es[0]]);
      assert acc + [es[0]] + es[1..] == acc + es;
    }
  }

  lemma {:induction false} InsertFresh(acc: seq<Entry>, k: Value, v: Value)
    requires forall a <- acc :: a.key != k
    ensures InsertEntry(acc, k, v) == acc + [Entry(k, v)]
  {
    if acc != [] {
      InsertFresh(acc[1..], k, v);
    }
  }

  lemma {:induction false} ItemIdentity(s: Schema, n: string, v: Value)
    requires Compiles(s) && Scoped(s, Named(n)) && TypedItem(s, Lookup(s, n).value, v)
    ensures ProjectItem(s, n, v) == v
    decreases v, 2
  {
    assert ScopedItem(s, Lookup(s, n).value);
    hide Compiles, ProjectSlots, ProjectFields, ProjectSlot;
    match Lookup(s, n).value
    case StructItem(_, fs) =>
      assert TypedSlots(s, fs, v.slots);
      SlotsIdentity(s, fs, v.slots);
    case MessageItem(_, fs) => FieldsIdentity(s, n, v);
    case UnionItem(_, vs) =>
      var variant := VariantAt(vs, v.tag).value;
      if variant.ty.Some? {
        SlotIdentity(s, variant.ty.value, false, v.payload);
      }
    case EnumItem(_, _) =>
  }

  lemma {:induction false} SlotIdentity(s: Schema, ty: Type, optional: bool, slot: Slot)
    requires Compiles(s) && Scoped(s, ty) && TypedSlot(s, ty, optional, slot)
    ensures ProjectSlot(s, ty, slot) == slot
    decreases slot, 4
  {
    if slot.Present? {
      ProjectIdentity(s, ty, slot.value);
    }
  }

  lemma {:induction false} SlotsIdentity(s: Schema, fs: seq<StructField>, slots: seq<Slot>)
    requires Compiles(s) && (forall f <- fs :: Scoped(s, f.ty)) && TypedSlots(s, fs, slots)
    ensures ProjectSlots(s, fs, slots) == slots
    decreases slots, 0
  {
    hide Compiles, ProjectSlot, TypedSlot;
    if slots != [] {
      SlotIdentity(s, fs[0].ty, fs[0].optional, slots[0]);
      SlotsIdentity(s, fs[1..], slots[1..]);
    }
  }

  lemma {:induction false} FieldsIdentity(s: Schema, n: string, v: Value)
    requires Compiles(s) && Scoped(s, Named(n)) && Lookup(s, n).value.MessageItem?
    requires v.VMsg? && TypedFields(s, Lookup(s, n).value.mfields, v)
    ensures ProjectFields(s, n, v) == v.fields
    decreases v, 1
  {
    var fs := Lookup(s, n).value.mfields;
    assert ScopedItem(s, Lookup(s, n).value);
    hide Compiles, Project, Typed, Default;
    forall i | i in v.fields ensures i in Indices(fs) && Project(s, FieldType(fs, i), v.fields[i]) == v.fields[i] {
      ProjectIdentity(s, FieldType(fs, i), v.fields[i]);
    }
    forall i | i in DefaultFields(s, n) ensures i in v.fields {
      assert FieldAt(fs, i).value in fs;
    }
  }

  // ---------------------------------------------------------------- the round trip

  /** Standalone: every legible value of every type, whatever follows it. */
  lemma ValueRoundTrip(s: Schema, ty: Type, v: Value, rest: bytes)
    requires Compiles(s) && Scoped(s, ty) && Typed(s, ty, v) && |Enc(s, ty, v)| < TWO_64 && Legible(s, s, ty, v)
    ensures Dec(s, ty, Enc(s, ty, v) + rest) == Ok(v, rest)
  {
    hide Compiles, Enc, Dec, Project, Legible, Evolves;
    SelfTalk(s);
    ValueDecodes(s, s, ty, v, rest);
    ProjectIdentity(s, ty, v);
  }

  /** In a schema within the format's limits that is every value. */
  lemma CodableRoundTrip(s: Schema, ty: Type, v: Value, rest: bytes)
    requires Compiles(s) && Codable(s) && Scoped(s, ty) && Typed(s, ty, v) && |Enc(s, ty, v)| < TWO_64
    ensures Dec(s, ty, Enc(s, ty, v) + rest) == Ok(v, rest)
  {
    hide Compiles, Codable, Enc, Dec, Legible;
    CodableIsLegible(s, s, ty, v);
    ValueRoundTrip(s, ty, v, rest);
  }

  /**
   * As a tagged field a value that is legible by itself comes back exactly when the decoder can
   * recover the count, that is, unless it is an array or a map whose elements take no bytes.
   */
  lemma FieldRoundTripIff(s: Schema, ty: Type, v: Value, rest: bytes)
    requires Compiles(s) && Scoped(s, ty) && Typed(s, ty, v) && |EncPayload(s, ty, v)| < TWO_64 && Legible(s, s, ty, v)
    ensures DecField(s, ty, EncPayload(s, ty, v) + rest) == Ok(v, rest) <==> Countable(s, ty)
  {
    if Countable(s, ty) {
      hide Compiles, EncPayload, DecField, Project, Legible, Evolves;
      SelfTalk(s);
      PayloadDecodes(s, s, ty, v, rest);
      ProjectIdentity(s, ty, v);
    } else {
      UncountableFails(s, ty, v, rest);
    }
  }

  /** For those the decoder panics on what the encoder writes. */
  lemma UncountableFails(s: Schema, ty: Type, v: Value, rest: bytes)
    requires Compiles(s) && Scoped(s, ty) && Typed(s, ty, v) && |EncPayload(s, ty, v)| < TWO_64 && !Countable(s, ty)
    ensures var p := DecField(s, ty, EncPayload(s, ty, v) + rest); p.Err? && p.error == RemainderByZero
  {
    hide Compiles, EncDelimited, DecField, Leb, FixedSize;
    UncountablePanics(s, ty, EncDelimited(s, ty, v), rest);
  }

  /** A unit variant comes back exactly when its tag fits the u32 it was computed in. */
  lemma UnitVariantRoundTripIff(s: Schema, n: string, tag: nat, rest: bytes)
    requires Compiles(s) && Scoped(s, Named(n)) && Lookup(s, n).value.UnionItem?
    requires VariantAt(Lookup(s, n).value.uvariants, tag).Some? &&
      VariantAt(Lookup(s, n).value.uvariants, tag).value.ty.None?
    ensures Typed(s, Named(n), VUnion(tag, Absent))
    ensures Dec(s, Named(n), Enc(s, Named(n), VUnion(tag, Absent)) + rest) == Ok(VUnion(tag, Absent), rest) <==>
      tag < 0x2000_0000
  {
    hide Compiles, DecodeLeb, Leb, DecField;
    var v, variant := VUnion(tag, Absent), VariantAt(Lookup(s, n).value.uvariants, tag).value;
    assert TypedItem(s, Lookup(s, n).value, v);
    assert Enc(s, Named(n), v) == EncVariant(s, variant, Absent) == Leb(UnitTag(variant.index));
    Skipping.TagParts(variant.index, UNIT);
    LebRoundTrip(UnitTag(variant.index), rest);
    assert UnitTag(variant.index) / 8 % TWO_32 == tag % 0x2000_0000;
    var buf := Leb(UnitTag(variant.index)) + rest;
    assert Dec(s, Named(n), buf) == DecItem(s, n, buf) == DecUnion(s, n, buf);
  }

  // ---------------------------------------------------------------- the two failures, concretely

  const VARIANT_A := UnionVariant("A", None, 1)
  const VARIANT_B := UnionVariant("B", None, 0x2000_0001)
  const WRAPPING: Schema := [UnionItem("U", [VARIANT_A, VARIANT_B])]

  lemma WrappingCompiles()
    ensures Compiles(WRAPPING) && Lookup(WRAPPING, "U") == Some(WRAPPING[0])
    ensures VariantAt(WRAPPING[0].uvariants, 1) == Some(VARIANT_A)
    ensures VariantAt(WRAPPING[0].uvariants, 0x2000_0001) == Some(VARIANT_B)
  {
    assert Layered(WRAPPING, map[]);
    assert WRAPPING[0].uvariants[1..][0] == VARIANT_B;
  }

  /** Variant B = 0x20000001 of a two-variant union is written with the tag of A = 1, and read as A. */
  lemma UnitVariantWraps()
    ensures Compiles(WRAPPING) && Scoped(WRAPPING, Named("U")) &&
      Typed(WRAPPING, Named("U"), VUnion(0x2000_0001, Absent))
    ensures Dec(WRAPPING, Named("U"), Enc(WRAPPING, Named("U"), VUnion(0x2000_0001, Absent))) ==
      Ok(VUnion(1, Absent), [])
  {
    WrappingCompiles();
    hide Compiles, VariantAt, Lookup, DecodeLeb, Leb;
    var b := VUnion(0x2000_0001, Absent);
    assert TypedItem(WRAPPING, WRAPPING[0], b);
    assert Enc(WRAPPING, Named("U"), b) == EncVariant(WRAPPING, VARIANT_B, Absent) == Leb(15);
    LebRoundTrip(15, []);
    assert Leb(15) + [] == Leb(15);
    assert Dec(WRAPPING, Named("U"), Leb(15)) == DecUnion(WRAPPING, "U", Leb(15));
  }

  const LIST_OF_EMPTY := MessageField("xs", Array(Named("E")), 1, false)
  const EMPTY_ELEMENTS: Schema := [StructItem("E", []), MessageItem("M", [LIST_OF_EMPTY])]

  /**
   * Empty structs cannot be the elements of a field: its length is 0 and the decoder divides by
   * the element size. The field is lost with whatever value it had, and two bytes of a message are
   * enough, 0C for the tag of `xs: E[] = 1` and 00 for its length.
   */
  lemma EmptyElementsPanic(rest: bytes)
    ensures var ty, v := Array(Named("E")), VArr([VStruct([])]);
      Compiles(EMPTY_ELEMENTS) && Scoped(EMPTY_ELEMENTS, ty) && Typed(EMPTY_ELEMENTS, ty, v) &&
      var p := DecField(EMPTY_ELEMENTS, ty, EncPayload(EMPTY_ELEMENTS, ty, v) + rest);
      p.Err? && p.error == RemainderByZero
    ensures Scoped(EMPTY_ELEMENTS, Named("M"))
    ensures var p := Dec(EMPTY_ELEMENTS, Named("M"), [0x0C, 0x00]); p.Err? && p.error == RemainderByZero
  {
    var s, v := EMPTY_ELEMENTS, VArr([VStruct([])]);
    EmptyCompiles();
    assert Typed(s, Array(Named("E")), v) by { EmptyTyped(); }
    hide Compiles, Dec, DecField, Enc, Typed, Countable, EncPayload;
    EmptyElementsEncode(s, v);
    UncountableFails(s, Array(Named("E")), v, rest);
    MessagePanics(s, "M", LIST_OF_EMPTY);
    TwoBytes();
  }

  lemma EmptyCompiles()
    ensures Compiles(EMPTY_ELEMENTS)
    ensures Lookup(EMPTY_ELEMENTS, "E") == Some(EMPTY_ELEMENTS[0]) &&
      Lookup(EMPTY_ELEMENTS, "M") == Some(EMPTY_ELEMENTS[1])
  {
    var s := EMPTY_ELEMENTS;
    assert s[1..][0] == s[1] && s[0].name != "M" by {
      assert "E"[0] != "M"[0];
    }
    forall it <- s, ty {:trigger NeedsDefaultOf(it, ty)} | NeedsDefaultOf(it, ty)
      ensures RankOf(map["M" := 0], ty) < RankOf(map["M" := 0], Named(it.name))
    {
    }
    assert Layered(s, map["M" := 0]);
    assert Scoped(s, Named("E")) && Scoped(s, LIST_OF_EMPTY.ty);
    assert Closed(s) && Numbered(s[0]) && Numbered(s[1]);
  }

  lemma EmptyTyped()
    ensures Typed(EMPTY_ELEMENTS, Array(Named("E")), VArr([VStruct([])]))
  {
    EmptyCompiles();
    hide Compiles;
    var v := VStruct([]);
    assert TypedItem(EMPTY_ELEMENTS, EMPTY_ELEMENTS[0], v);
    assert Typed(EMPTY_ELEMENTS, Named("E"), v);
  }

  lemma TwoBytes()
    ensures EmptyField(1) == [0x0C, 0x00]
  {
  }

  lemma EmptyElementsEncode(s: Schema, v: Value)
    requires s == EMPTY_ELEMENTS && Compiles(s) && v == VArr([VStruct([])]) && Typed(s, Array(Named("E")), v)
    requires Lookup(s, "E") == Some(s[0])
    ensures !Countable(s, Array(Named("E"))) && |EncPayload(s, Array(Named("E")), v)| < TWO_64
  {
    hide Compiles;
    assert FixedSize(s, Named("E")) == FieldsSize(s, []) == Some(0);
    assert EncElems(s, Named("E"), v.elems) == Enc(s, Named("E"), v.elems[0]) + [] == [];
    assert EncDelimited(s, Array(Named("E")), v) == [];
  }
}
