/** Messages do not depend on order: not on that of their declarations, nor on that of their segments. */
module FieldOrder {
  import opened Wire
  import opened Leb128
  import opened Schema
  import opened Values
  import opened Encoder
  import opened Decoder
  import opened Compatibility
  import opened Evolution
  import Skipping

  // ---------------------------------------------------------------- sorting

  ghost predicate DistinctIndices(fs: seq<MessageField>)
  {
    forall i, j :: 0 <= i < j < |fs| ==> fs[i].index != fs[j].index
  }

  ghost predicate Ascending(fs: seq<MessageField>)
  {
    forall i, j :: 0 <= i < j < |fs| ==> fs[i].index < fs[j].index
  }

  ghost predicate SameFields(a: seq<MessageField>, b: seq<MessageField>)
  {
    forall f :: f in a <==> f in b
  }

  lemma {:induction false} InsertAscending(f: MessageField, fs: seq<MessageField>)
    requires Ascending(fs) && forall g <- fs :: g.index != f.index
    ensures Ascending(Insert(f, fs))
  {
    if fs != [] && f.index > fs[0].index {
      InsertAscending(f, fs[1..]);
      var r := Insert(f, fs[1..]);
      forall j | 0 <= j < |r| ensures fs[0].index < r[j].index {
        assert r[j] in r;
      }
    }
  }

  lemma {:induction false} SortAscending(fs: seq<MessageField>)
    requires DistinctIndices(fs)
    ensures Ascending(SortByIndex(fs))
  {
    if fs != [] {
      SortAscending(fs[1..]);
      InsertAscending(fs[0], SortByIndex(fs[1..]));
    }
  }

  lemma {:induction false} AscendingUnique(a: seq<MessageField>, b: seq<MessageField>)
    requires Ascending(a) && Ascending(b) && SameFields(a, b)
    ensures a == b
  {
    if b != [] {
      SomeField(a, b);
    }
    if a != [] {
      assert a[0] in a && a[0] in b;
      assert b[0] in b && b[0] in a;
      assert a[0] == b[0];
      forall f ensures f in a[1..] <==> f in b[1..] {
        assert a[0] !in a[1..] && b[0] !in b[1..];
        assert f in a <==> f == a[0] || f in a[1..];
        assert f in b <==> f == b[0] || f in b[1..];
      }
      AscendingUnique(a[1..], b[1..]);
    }
  }

  lemma SomeField(a: seq<MessageField>, b: seq<MessageField>)
    requires SameFields(a, b) && b != []
    ensures a != []
  {
    assert b[0] in a;
  }

  /** Sorting by a unique index forgets the order it started from. */
  lemma SortForgetsOrder(a: seq<MessageField>, b: seq<MessageField>)
    requires SameFields(a, b) && DistinctIndices(a) && DistinctIndices(b)
    ensures SortByIndex(a) == SortByIndex(b)
  {
    SortAscending(a);
    SortAscending(b);
    AscendingUnique(SortByIndex(a), SortByIndex(b));
  }

  // ---------------------------------------------------------------- redeclared schemas

  /** The same item, but for the order in which a message declares its fields. */
  ghost predicate RedeclaredItem(a: Item, b: Item)
  {
    if a.MessageItem? then b.MessageItem? && a.name == b.name && SameFields(a.mfields, b.mfields) else a == b
  }

  ghost predicate Redeclared(a: Schema, b: Schema)
  {
    |a| == |b| && forall i :: 0 <= i < |a| ==> RedeclaredItem(a[i], b[i])
  }

  ghost predicate Twins(a: Schema, b: Schema)
  {
    Compiles(a) && Compiles(b) && Redeclared(a, b)
  }

  lemma {:induction false} LookupTwin(a: Schema, b: Schema, n: string)
    requires Redeclared(a, b)
    ensures Lookup(a, n).Some? == Lookup(b, n).Some?
    ensures Lookup(a, n).Some? ==> RedeclaredItem(Lookup(a, n).value, Lookup(b, n).value)
  {
    hide RedeclaredItem;
    if a != [] {
      assert RedeclaredItem(a[0], b[0]);
      SameName(a[0], b[0]);
      assert Redeclared(a[1..], b[1..]) by {
        forall i | 0 <= i < |a[1..]| ensures RedeclaredItem(a[1..][i], b[1..][i]) {
          assert RedeclaredItem(a[i + 1], b[i + 1]);
        }
      }
      LookupTwin(a[1..], b[1..], n);
    }
  }

  lemma SameName(a: Item, b: Item)
    requires RedeclaredItem(a, b)
    ensures a.name == b.name
  {
  }

  lemma {:induction false} ScopedTwin(a: Schema, b: Schema, ty: Type)
    requires Redeclared(a, b)
    ensures Scoped(a, ty) == Scoped(b, ty)
  {
    hide Redeclared;
    match ty
    case Named(n) => LookupTwin(a, b, n);
    case Array(t) => ScopedTwin(a, b, t);
    case Map(k, t) =>
      ScopedTwin(a, b, k);
      ScopedTwin(a, b, t);
    case _ =>
  }

  lemma WireTypeTwin(a: Schema, b: Schema, ty: Type)
    requires Redeclared(a, b) && Scoped(a, ty) && Scoped(b, ty)
    ensures WireType(a, ty) == WireType(b, ty)
  {
    hide Redeclared;
    if ty.Named? {
      LookupTwin(a, b, ty.name);
    }
  }

  lemma {:induction false} FixedSizeTwin(a: Schema, b: Schema, ty: Type)
    requires Twins(a, b) && Scoped(a, ty) && Scoped(b, ty)
    ensures FixedSize(a, ty) == FixedSize(b, ty)
    decreases Rank(a, ty), 1, 0
  {
    if ty.Named? {
      LookupTwin(a, b, ty.name);
      var it := Lookup(a, ty.name).value;
      assert ScopedItem(a, it) && ScopedItem(b, Lookup(b, ty.name).value);
      hide FieldsSize, Redeclared, Compiles;
      if it.StructItem? && !HasOptional(it.sfields) {
        FieldsRankBound(a, ty.name, it.sfields);
        FieldsSizeTwin(a, b, it.sfields);
      }
    }
  }

  lemma {:induction false} FieldsSizeTwin(a: Schema, b: Schema, fs: seq<StructField>)
    requires Twins(a, b) && (forall f <- fs :: Scoped(a, f.ty) && Scoped(b, f.ty))
    ensures FieldsSize(a, fs) == FieldsSize(b, fs)
    decreases FieldsRank(a, fs), 0, |fs|
  {
    hide FixedSize, Compiles, Redeclared;
    if fs != [] {
      FixedSizeTwin(a, b, fs[0].ty);
      FieldsSizeTwin(a, b, fs[1..]);
    }
  }

  // ---------------------------------------------------------------- permuted declarations

  ghost predicate Coded(a: Schema, b: Schema, ty: Type, v: Value)
  {
    Twins(a, b) && Scoped(a, ty) && Scoped(b, ty) && Typed(a, ty, v)
  }

  /** Permuting the field declarations of any messages changes no value's type and no byte of its encoding. */
  lemma {:induction false} DeclarationOrderIrrelevant(a: Schema, b: Schema, ty: Type, v: Value)
    requires Coded(a, b, ty, v)
    ensures Typed(b, ty, v) && Enc(a, ty, v) == Enc(b, ty, v)
    decreases v, 4
  {
    hide Twins;
    match ty
    case Array(t) =>
      hide TypedElems, EncElems;
      ElemsTwin(a, b, t, v.elems);
    case Map(k, t) =>
      hide TypedEntries, EncEntries;
      EntriesTwin(a, b, k, t, v.entries);
    case Named(n) =>
      hide TypedItem, EncItem;
      NamedTwin(a, b, n, v);
    case _ =>
  }

  lemma {:induction false} ElemsTwin(a: Schema, b: Schema, t: Type, es: seq<Value>)
    requires Twins(a, b) && Scoped(a, t) && Scoped(b, t) && TypedElems(a, t, es)
    ensures TypedElems(b, t, es) && EncElems(a, t, es) == EncElems(b, t, es)
    decreases es, 0
  {
    hide Twins, Typed, Enc;
    if es != [] {
      DeclarationOrderIrrelevant(a, b, t, es[0]);
      ElemsTwin(a, b, t, es[1..]);
    }
  }

  lemma {:induction false} EntriesTwin(a: Schema, b: Schema, k: Type, t: Type, es: seq<Entry>)
    requires Twins(a, b) && Scoped(a, k) && Scoped(b, k) && Scoped(a, t) && Scoped(b, t) && TypedEntries(a, k, t, es)
    ensures TypedEntries(b, k, t, es) && EncEntries(a, k, t, es) == EncEntries(b, k, t, es)
    decreases es, 0
  {
    assert Compiles(a) && Compiles(b);
    hide Compiles, Redeclared, TypedEntry, EncEntry, TypedEntries, EncEntries, Scoped;
    if es == [] {
      EntriesNil(a, k, t);
      EntriesNil(b, k, t);
    } else {
      EntriesCons(a, k, t, es);
      EntryTwin(a, b, k, t, es[0]);
      EntriesTwin(a, b, k, t, es[1..]);
      EntriesJoin(b, k, t, es);
      EntriesCons(b, k, t, es);
    }
  }

  lemma {:induction false} EntryTwin(a: Schema, b: Schema, k: Type, t: Type, e: Entry)
    requires Twins(a, b) && Scoped(a, k) && Scoped(b, k) && Scoped(a, t) && Scoped(b, t) && TypedEntry(a, k, t, e)
    ensures TypedEntry(b, k, t, e) && EncEntry(a, k, t, e) == EncEntry(b, k, t, e)
    decreases e, 0
  {
    hide Twins, Typed, Enc;
    DeclarationOrderIrrelevant(a, b, k, e.key);
    DeclarationOrderIrrelevant(a, b, t, e.value);
  }

  lemma {:induction false} NamedTwin(a: Schema, b: Schema, n: string, v: Value)
    requires Twins(a, b) && Scoped(a, Named(n)) && Scoped(b, Named(n)) && TypedItem(a, Lookup(a, n).value, v)
    ensures TypedItem(b, Lookup(b, n).value, v)
    ensures EncItem(a, Lookup(a, n).value, v) == EncItem(b, Lookup(b, n).value, v)
    decreases v, 3
  {
    LookupTwin(a, b, n);
    var it, jt := Lookup(a, n).value, Lookup(b, n).value;
    assert ScopedItem(a, it) && ScopedItem(b, jt) && Numbered(it) && Numbered(jt);
    hide Twins, Redeclared;
    match it
    case StructItem(_, fs) =>
      hide TypedSlots, EncSlots;
      SlotsTwin(a, b, fs, v.slots);
    case MessageItem(_, fs) => MessageTwin(a, b, it, jt, v);
    case EnumItem(_, _) =>
    case UnionItem(_, vs) =>
      hide TypedPayload, EncVariant;
      VariantTwin(a, b, VariantAt(vs, v.tag).value, v.payload);
  }

  lemma {:induction false} SlotsTwin(a: Schema, b: Schema, fs: seq<StructField>, slots: seq<Slot>)
    requires Twins(a, b) && (forall f <- fs :: Scoped(a, f.ty) && Scoped(b, f.ty)) && TypedSlots(a, fs, slots)
    ensures TypedSlots(b, fs, slots) && EncSlots(a, fs, slots) == EncSlots(b, fs, slots)
    decreases slots, 0
  {
    hide Twins, TypedSlot, EncSlot;
    if slots != [] {
      SlotTwin(a, b, fs[0].ty, fs[0].optional, slots[0]);
      SlotsTwin(a, b, fs[1..], slots[1..]);
      forall i | 0 <= i < |slots| ensures TypedSlot(b, fs[i].ty, fs[i].optional, slots[i]) {
        if i > 0 {
          assert fs[i] == fs[1..][i - 1] && slots[i] == slots[1..][i - 1];
        }
      }
    }
  }

  lemma {:induction false} SlotTwin(a: Schema, b: Schema, ty: Type, optional: bool, slot: Slot)
    requires Twins(a, b) && Scoped(a, ty) && Scoped(b, ty) && TypedSlot(a, ty, optional, slot)
    ensures TypedSlot(b, ty, optional, slot) && EncSlot(a, ty, optional, slot) == EncSlot(b, ty, optional, slot)
    decreases slot, 1
  {
    hide Twins, Typed, Enc;
    if slot.Present? {
      DeclarationOrderIrrelevant(a, b, ty, slot.value);
    }
  }

  lemma {:induction false} VariantTwin(a: Schema, b: Schema, variant: UnionVariant, payload: Slot)
    requires Twins(a, b) && TypedPayload(a, variant.ty, payload)
    requires variant.ty.Some? ==> Scoped(a, variant.ty.value) && Scoped(b, variant.ty.value)
    ensures TypedPayload(b, variant.ty, payload) && EncVariant(a, variant, payload) == EncVariant(b, variant, payload)
    decreases payload, 1
  {
    hide Twins, Typed, EncField;
    if variant.ty.Some? {
      FieldTwin(a, b, variant.index, variant.ty.value, payload.value);
    }
  }

  lemma {:induction false} FieldTwin(a: Schema, b: Schema, index: u32, ty: Type, v: Value)
    requires Coded(a, b, ty, v)
    ensures Typed(b, ty, v) && EncField(a, index, ty, v) == EncField(b, index, ty, v)
    decreases v, 6
  {
    hide Twins, Typed, Enc, EncDelimited;
    WireTypeTwin(a, b, ty) by { assert Redeclared(a, b) by { TwinsRedeclared(a, b); } }
    DeclarationOrderIrrelevant(a, b, ty, v);
    DelimitedTwin(a, b, ty, v);
  }

  lemma TwinsRedeclared(a: Schema, b: Schema)
    requires Twins(a, b)
    ensures Redeclared(a, b)
  {
  }

  lemma {:induction false} DelimitedTwin(a: Schema, b: Schema, ty: Type, v: Value)
    requires Coded(a, b, ty, v) && Typed(b, ty, v) && Enc(a, ty, v) == Enc(b, ty, v)
    ensures EncDelimited(a, ty, v) == EncDelimited(b, ty, v)
    decreases v, 5
  {
    hide Twins, FixedSize;
    match ty
    case Array(t) =>
      hide TypedElems, EncElems;
      FixedSizeTwin(a, b, t);
      ElemsTwin(a, b, t, v.elems);
    case Map(k, t) =>
      hide TypedEntries, EncEntries;
      FixedSizeTwin(a, b, k);
      FixedSizeTwin(a, b, t);
      EntriesTwin(a, b, k, t, v.entries);
    case _ =>
  }

  lemma FieldAtTwin(fs: seq<MessageField>, gs: seq<MessageField>, i: nat)
    requires SameFields(fs, gs) && DistinctIndices(fs) && DistinctIndices(gs)
    ensures FieldAt(fs, i) == FieldAt(gs, i)
  {
    if FieldAt(fs, i).Some? {
      FieldAtUnique(gs, FieldAt(fs, i).value);
    }
  }

  lemma {:induction false} MessageTwin(a: Schema, b: Schema, it: Item, jt: Item, v: Value)
    requires Twins(a, b) && ScopedIn(a, it) && ScopedIn(b, jt) && it.MessageItem? && RedeclaredItem(it, jt)
    requires ScopedItem(a, it) && ScopedItem(b, jt) && Numbered(it) && Numbered(jt) && TypedItem(a, it, v)
    ensures TypedItem(b, jt, v) && EncItem(a, it, v) == EncItem(b, jt, v)
    decreases v, 2
  {
    var fs, gs := it.mfields, jt.mfields;
    SortForgetsOrder(fs, gs);
    AllSendable(a, it);
    AllSendable(b, jt);
    hide Twins, Typed, EncFields, SortByIndex;
    forall i ensures FieldAt(fs, i) == FieldAt(gs, i) {
      FieldAtTwin(fs, gs, i);
    }
    forall i <- v.fields ensures Typed(b, FieldAt(gs, i).value.ty, v.fields[i]) {
      assert FieldAt(fs, i).value in fs && FieldAt(gs, i).value in gs;
      DeclarationOrderIrrelevant(a, b, FieldAt(fs, i).value.ty, v.fields[i]);
    }
    assert TypedFields(b, gs, v);
    FieldsTwin(a, b, fs, gs, SortByIndex(fs), v);
  }

  lemma {:induction false} FieldsTwin(a: Schema, b: Schema, fs: seq<MessageField>, gs: seq<MessageField>,
                                      order: seq<MessageField>, v: Value)
    requires Twins(a, b) && v.VMsg? && TypedFields(a, fs, v) && TypedFields(b, gs, v)
    requires Sendable(a, fs, order) && Sendable(b, gs, order)
    ensures EncFields(a, fs, order, v) == EncFields(b, gs, order, v)
    decreases v, 1, |order|
  {
    hide Twins, TypedFields, EncSent, FieldAt;
    if order != [] {
      SentTwin(a, b, fs, gs, order[0], v);
      FieldsTwin(a, b, fs, gs, order[1..], v);
    }
  }

  lemma {:induction false} SentTwin(a: Schema, b: Schema, fs: seq<MessageField>, gs: seq<MessageField>,
                                    f: MessageField, v: Value)
    requires Twins(a, b) && v.VMsg? && TypedFields(a, fs, v) && TypedFields(b, gs, v)
    requires FieldAt(fs, f.index) == Some(f) && FieldAt(gs, f.index) == Some(f) && Scoped(a, f.ty) && Scoped(b, f.ty)
    ensures EncSent(a, fs, f, v) == EncSent(b, gs, f, v)
    decreases v, 0
  {
    hide Twins, Typed, EncField;
    if f.index in v.fields {
      FieldTwin(a, b, f.index, f.ty, v.fields[f.index]);
    }
  }

  // ---------------------------------------------------------------- permuted segments

  /** A message written with its fields in two orders is read as the same value, by any compatible reader. */
  lemma SegmentOrderIrrelevant(w: Schema, r: Schema, wf: seq<MessageField>, rf: seq<MessageField>,
                               one: seq<MessageField>, other: seq<MessageField>, v: Value, acc: map<nat, Value>,
                               rest: bytes)
    requires FieldsContext(w, r, wf, rf) && v.VMsg? && TypedFields(w, wf, v)
    requires Sendable(w, wf, one) && Sendable(w, wf, other) && SameFields(one, other)
    requires |EncFields(w, wf, one, v)| < TWO_64 && |EncFields(w, wf, other, v)| < TWO_64
    requires Compiles(w) && (forall f <- wf :: Scoped(w, f.ty)) && LegibleFields(w, r, wf, rf, v)
    ensures DecFields(r, rf, EncFields(w, wf, one, v) + ([0] + rest), acc) ==
      DecFields(r, rf, EncFields(w, wf, other, v) + ([0] + rest), acc)
  {
    hide FieldsContext, LegibleFields, TypedFields, EncFields, DecFields, Sendable, Project;
    assert Compiles(r) && forall g <- rf :: Scoped(r, g.ty) by { ContextScopes(w, r, wf, rf); }
    assert Indices(one) == Indices(other);
    FieldsDecode(w, r, wf, rf, one, v, acc, rest);
    FieldsDecode(w, r, wf, rf, other, v, acc, rest);
  }

  lemma ContextScopes(w: Schema, r: Schema, wf: seq<MessageField>, rf: seq<MessageField>)
    requires FieldsContext(w, r, wf, rf)
    ensures Compiles(r) && forall g <- rf :: Scoped(r, g.ty)
  {
  }

  // ---------------------------------------------------------------- any segments at all

  /** One field as it stands in the bytes of a message, whoever wrote it. */
  datatype Segment = Segment(index: u32, wireType: nat, payload: bytes)

  function SegmentBytes(g: Segment): bytes
    requires g.wireType <= UNIT
  {
    Leb(Tag(g.index, g.wireType)) + g.payload
  }

  /** The reader finds the end of the payload: it decodes a field it knows and skips one it does not. */
  ghost predicate SelfContained(r: Schema, fs: seq<MessageField>, g: Segment)
    requires Compiles(r) && forall f <- fs :: Scoped(r, f.ty)
  {
    g.index > 0 && g.wireType <= UNIT &&
    var f := FieldAt(fs, g.index);
    if f.Some? then
      DecField(r, f.value.ty, g.payload).Ok? &&
      forall after :: DecField(r, f.value.ty, g.payload + after) == Ok(DecField(r, f.value.ty, g.payload).value, after)
    else
      forall after :: Skip(g.wireType, g.payload + after) == Ok((), after)
  }

  /** Segments with distinct indices, known to the reader or not. */
  ghost predicate Segments(r: Schema, fs: seq<MessageField>, gs: seq<Segment>)
    requires Compiles(r) && forall f <- fs :: Scoped(r, f.ty)
  {
    (forall g <- gs :: SelfContained(r, fs, g)) && (forall i, j :: 0 <= i < j < |gs| ==> gs[i].index != gs[j].index)
  }

  function MessageBytes(gs: seq<Segment>): bytes
    requires forall g <- gs :: g.wireType <= UNIT
  {
    if gs == [] then [] else SegmentBytes(gs[0]) + MessageBytes(gs[1..])
  }

  /** What a reader makes of a segment: a value, or nothing if it does not know the field. */
  datatype Reading = Reading(index: nat, value: Option<Value>)

  function ReadingOf(r: Schema, fs: seq<MessageField>, g: Segment): Reading
    requires Compiles(r) && forall f <- fs :: Scoped(r, f.ty)
  {
    var f := FieldAt(fs, g.index);
    if f.None? then Reading(g.index, None)
    else
      var p := DecField(r, f.value.ty, g.payload);
      Reading(g.index, if p.Ok? then Some(p.value) else None)
  }

  function Readings(r: Schema, fs: seq<MessageField>, gs: seq<Segment>): seq<Reading>
    requires Compiles(r) && forall f <- fs :: Scoped(r, f.ty)
  {
    if gs == [] then [] else [ReadingOf(r, fs, gs[0])] + Readings(r, fs, gs[1..])
  }

  ghost predicate DistinctReadings(rs: seq<Reading>)
  {
    forall i, j :: 0 <= i < j < |rs| ==> rs[i].index != rs[j].index
  }

  /** The fields a reader comes to hold. */
  ghost function Keep(rs: seq<Reading>): map<nat, Value>
    requires DistinctReadings(rs)
  {
    map e <- rs | e.value.Some? :: e.index := e.value.value
  }

  function Put(acc: map<nat, Value>, e: Reading): map<nat, Value>
  {
    if e.value.Some? then acc[e.index := e.value.value] else acc
  }

  lemma KeepAt(rs: seq<Reading>, e: Reading)
    requires DistinctReadings(rs) && e in rs && e.value.Some?
    ensures e.index in Keep(rs) && Keep(rs)[e.index] == e.value.value
  {
  }

  lemma KeepFrom(rs: seq<Reading>, i: nat) returns (e: Reading)
    requires DistinctReadings(rs) && i in Keep(rs)
    ensures e in rs && e.value.Some? && e.index == i
  {
    e :| e in rs && e.value.Some? && e.index == i;
  }

  lemma LaterDistinct(rs: seq<Reading>)
    requires DistinctReadings(rs) && rs != []
    ensures DistinctReadings(rs[1..]) && forall e <- rs[1..] :: e.index != rs[0].index
  {
    forall e <- rs[1..] ensures e.index != rs[0].index {
      var j :| 0 <= j < |rs[1..]| && rs[1..][j] == e;
      assert rs[j + 1] == e;
    }
  }

  lemma KeepKeys(rs: seq<Reading>, i: nat)
    requires DistinctReadings(rs) && rs != [] && DistinctReadings(rs[1..])
    ensures i in Keep(rs) <==> i in Keep(rs[1..]) || (i == rs[0].index && rs[0].value.Some?)
  {
    hide Keep, DistinctReadings;
    assert rs == [rs[0]] + rs[1..];
    if i in Keep(rs) {
      var e := KeepFrom(rs, i);
      if e != rs[0] {
        KeepAt(rs[1..], e);
      }
    }
    if i in Keep(rs[1..]) {
      var e := KeepFrom(rs[1..], i);
      KeepAt(rs, e);
    }
    if rs[0].value.Some? {
      KeepAt(rs, rs[0]);
    }
  }

  /** Seen one entry earlier, the fields are those of the later entries and perhaps the first. */
  lemma KeepFirst(rs: seq<Reading>)
    requires DistinctReadings(rs) && rs != []
    ensures DistinctReadings(rs[1..]) && rs[0].index !in Keep(rs[1..])
    ensures Keep(rs) == Put(Keep(rs[1..]), rs[0])
  {
    LaterDistinct(rs);
    var all, later := Keep(rs), Keep(rs[1..]);
    hide Keep, DistinctReadings;
    forall i: nat ensures i in all <==> i in later || (i == rs[0].index && rs[0].value.Some?) {
      KeepKeys(rs, i);
    }
    forall i <- later ensures i != rs[0].index && all[i] == later[i] {
      var e := KeepFrom(rs[1..], i);
      KeepAt(rs[1..], e);
      KeepAt(rs, e);
    }
    if rs[0].value.Some? {
      KeepAt(rs, rs[0]);
    }
  }

  lemma KeepCons(rs: seq<Reading>, acc: map<nat, Value>)
    requires DistinctReadings(rs) && rs != []
    ensures DistinctReadings(rs[1..]) && acc + Keep(rs) == Put(acc, rs[0]) + Keep(rs[1..])
  {
    KeepFirst(rs);
    hide Keep, DistinctReadings;
  }

  lemma KeepSame(one: seq<Reading>, other: seq<Reading>)
    requires DistinctReadings(one) && DistinctReadings(other) && forall e :: e in one <==> e in other
    ensures Keep(one) == Keep(other)
  {
  }

  lemma {:induction false} ReadingsAt(r: Schema, fs: seq<MessageField>, gs: seq<Segment>)
    requires Compiles(r) && forall f <- fs :: Scoped(r, f.ty)
    ensures |Readings(r, fs, gs)| == |gs|
    ensures forall i :: 0 <= i < |gs| ==> Readings(r, fs, gs)[i] == ReadingOf(r, fs, gs[i])
    ensures forall g <- gs :: ReadingOf(r, fs, g) in Readings(r, fs, gs)
    ensures forall e <- Readings(r, fs, gs) :: exists g <- gs :: ReadingOf(r, fs, g) == e
  {
    hide Compiles, Scoped, ReadingOf;
    if gs != [] {
      ReadingsAt(r, fs, gs[1..]);
    }
  }

  lemma ReadingsDistinct(r: Schema, fs: seq<MessageField>, gs: seq<Segment>)
    requires Compiles(r) && (forall f <- fs :: Scoped(r, f.ty)) && Segments(r, fs, gs)
    ensures DistinctReadings(Readings(r, fs, gs))
  {
    assert forall g :: ReadingOf(r, fs, g).index == g.index by {
      hide Compiles, Scoped, DecField, FieldAt;
    }
    hide Compiles, Scoped, SelfContained, ReadingOf, Readings;
    ReadingsAt(r, fs, gs);
  }

  /** One turn of the message loop. */
  lemma SegmentRead(r: Schema, fs: seq<MessageField>, g: Segment, after: bytes, acc: map<nat, Value>)
    requires Compiles(r) && (forall f <- fs :: Scoped(r, f.ty)) && SelfContained(r, fs, g)
    ensures DecFields(r, fs, SegmentBytes(g) + after, acc) == DecFields(r, fs, after, Put(acc, ReadingOf(r, fs, g)))
  {
    FieldsTurn(r, fs, FieldTag(g.index, g.wireType), g.payload, after, acc);
    hide Compiles, Scoped, DecFields, DecField, Skip, Leb, Tag, FieldAt;
  }

  /** What an encoder writes for a field is such a segment to every compatible reader. */
  lemma SentIsSegment(w: Schema, r: Schema, wf: seq<MessageField>, rf: seq<MessageField>, f: MessageField, v: Value)
    requires FieldsContext(w, r, wf, rf) && v.VMsg? && TypedFields(w, wf, v) && LegibleFields(w, r, wf, rf, v)
    requires FieldAt(wf, f.index) == Some(f) && f.index in v.fields && |EncSent(w, wf, f, v)| < TWO_64
    ensures var g := Segment(f.index, WireType(w, f.ty), EncPayload(w, f.ty, v.fields[f.index]));
      SelfContained(r, rf, g) && SegmentBytes(g) == EncSent(w, wf, f, v)
  {
    hide Compiles, Evolves, EncPayload, DecField, Skip, Project, Countable, Legible;
    var value := v.fields[f.index];
    var payload := EncPayload(w, f.ty, value);
    if FieldAt(rf, f.index).Some? {
      PayloadDecodes(w, r, f.ty, value, []);
      assert payload + [] == payload;
      forall after ensures DecField(r, f.ty, payload + after) == Ok(Project(r, f.ty, value), after) {
        PayloadDecodes(w, r, f.ty, value, after);
      }
    } else {
      forall after ensures Skip(WireType(w, f.ty), payload + after) == Ok((), after) {
        Skipping.SkipPayload(w, f.ty, value, after);
      }
    }
  }

  /** A message of any such segments, in any order, is read as what its reader keeps of them. */
  lemma {:induction false} SegmentsDecode(r: Schema, fs: seq<MessageField>, gs: seq<Segment>, acc: map<nat, Value>,
                                          rest: bytes)
    requires Compiles(r) && (forall f <- fs :: Scoped(r, f.ty)) && Segments(r, fs, gs)
    ensures DistinctReadings(Readings(r, fs, gs))
    ensures DecFields(r, fs, MessageBytes(gs) + ([0] + rest), acc) == Ok(acc + Keep(Readings(r, fs, gs)), rest)
    decreases |gs|
  {
    ReadingsDistinct(r, fs, gs);
    if gs == [] {
      NoSegments(r, fs, acc, rest);
    } else {
      FewerSegments(r, fs, gs, rest);
      hide *;
      var after := MessageBytes(gs[1..]) + ([0] + rest);
      SegmentRead(r, fs, gs[0], after, acc);
      SegmentsDecode(r, fs, gs[1..], Put(acc, ReadingOf(r, fs, gs[0])), rest);
      KeepCons(Readings(r, fs, gs), acc);
    }
  }

  lemma NoSegments(r: Schema, fs: seq<MessageField>, acc: map<nat, Value>, rest: bytes)
    requires Compiles(r) && forall f <- fs :: Scoped(r, f.ty)
    ensures DecFields(r, fs, MessageBytes([]) + ([0] + rest), acc) == Ok(acc + Keep(Readings(r, fs, [])), rest)
  {
    hide Compiles, Scoped, DecodeTag;
    Skipping.EndRead(rest);
    assert MessageBytes([]) + ([0] + rest) == [0] + rest;
    assert acc + Keep([]) == acc;
  }

  lemma FewerSegments(r: Schema, fs: seq<MessageField>, gs: seq<Segment>, rest: bytes)
    requires Compiles(r) && (forall f <- fs :: Scoped(r, f.ty)) && Segments(r, fs, gs) && gs != []
    ensures Segments(r, fs, gs[1..]) && SelfContained(r, fs, gs[0])
    ensures Readings(r, fs, gs)[0] == ReadingOf(r, fs, gs[0]) && Readings(r, fs, gs)[1..] == Readings(r, fs, gs[1..])
    ensures MessageBytes(gs) + ([0] + rest) == SegmentBytes(gs[0]) + (MessageBytes(gs[1..]) + ([0] + rest))
  {
    hide Compiles, Scoped, ReadingOf, SegmentBytes;
    assert forall g <- gs :: SelfContained(r, fs, g) ==> g.wireType <= UNIT;
    hide SelfContained;
    var first, later, end := SegmentBytes(gs[0]), MessageBytes(gs[1..]), [0] + rest;
    assert first + later + end == first + (later + end);
  }

  /** Two messages of the same segments are read alike, whatever the order and whoever wrote them. */
  lemma AnyOrder(r: Schema, fs: seq<MessageField>, one: seq<Segment>, other: seq<Segment>, acc: map<nat, Value>,
                 rest: bytes)
    requires Compiles(r) && (forall f <- fs :: Scoped(r, f.ty)) && Segments(r, fs, one)
    requires multiset(one) == multiset(other)
    ensures Segments(r, fs, other)
    ensures DecFields(r, fs, MessageBytes(one) + ([0] + rest), acc) ==
      DecFields(r, fs, MessageBytes(other) + ([0] + rest), acc)
  {
    PermutedSegments(r, fs, one, other);
    hide Compiles, Scoped, Segments, DecFields, MessageBytes, Readings, ReadingOf;
    SegmentsDecode(r, fs, one, acc, rest);
    SegmentsDecode(r, fs, other, acc, rest);
    ReadingsAt(r, fs, one);
    ReadingsAt(r, fs, other);
    assert forall g :: g in one <==> g in multiset(one);
    assert forall g :: g in other <==> g in multiset(other);
    KeepSame(Readings(r, fs, one), Readings(r, fs, other));
  }

  lemma PermutedSegments(r: Schema, fs: seq<MessageField>, one: seq<Segment>, other: seq<Segment>)
    requires Compiles(r) && (forall f <- fs :: Scoped(r, f.ty)) && Segments(r, fs, one)
    requires multiset(one) == multiset(other)
    ensures Segments(r, fs, other)
  {
    hide Compiles, Scoped, SelfContained;
    forall g <- other ensures g in one {
      assert g in multiset(one);
    }
    forall i, j | 0 <= i < j < |other| ensures other[i].index != other[j].index {
      assert other[i] in one && other[j] in one;
      if other[i] == other[j] {
        Twice(other, i, j);
        Once(one, other[i]);
      }
    }
  }

  lemma Twice(gs: seq<Segment>, i: nat, j: nat)
    requires i < j < |gs| && gs[i] == gs[j]
    ensures multiset(gs)[gs[i]] >= 2
  {
    assert gs == gs[..j] + gs[j..] && gs[..j][i] == gs[i] && gs[j..][0] == gs[i];
  }

  lemma {:induction false} Once(gs: seq<Segment>, g: Segment)
    requires forall i, j :: 0 <= i < j < |gs| ==> gs[i].index != gs[j].index
    ensures multiset(gs)[g] <= 1
  {
    if gs != [] {
      assert gs == [gs[0]] + gs[1..];
      Once(gs[1..], g);
      if gs[0] == g {
        assert g !in gs[1..];
      }
    }
  }

  // ---------------------------------------------------------------- repeated fields

  /** Segments of any indices, the same one any number of times. */
  ghost predicate AllSelfContained(r: Schema, fs: seq<MessageField>, gs: seq<Segment>)
    requires Compiles(r) && forall f <- fs :: Scoped(r, f.ty)
  {
    forall g <- gs :: SelfContained(r, fs, g)
  }

  function PutAll(acc: map<nat, Value>, rs: seq<Reading>): map<nat, Value>
    decreases |rs|
  {
    if rs == [] then acc else PutAll(Put(acc, rs[0]), rs[1..])
  }

  /** Place `k` is the last of the readings that says anything of field `i`. */
  predicate LastOf(rs: seq<Reading>, i: nat, k: nat)
  {
    k < |rs| && rs[k].index == i && rs[k].value.Some? &&
    forall j :: k < j < |rs| && rs[j].index == i ==> rs[j].value.None?
  }

  /** A field repeated holds the last value read for it. */
  lemma {:induction false} LastWins(acc: map<nat, Value>, rs: seq<Reading>, i: nat, k: nat)
    requires LastOf(rs, i, k)
    ensures i in PutAll(acc, rs) && PutAll(acc, rs)[i] == rs[k].value.value
    decreases |rs|
  {
    if k > 0 {
      assert LastOf(rs[1..], i, k - 1) by {
        forall j | k - 1 < j < |rs[1..]| && rs[1..][j].index == i ensures rs[1..][j].value.None? {
          assert rs[j + 1] == rs[1..][j];
        }
      }
      LastWins(Put(acc, rs[0]), rs[1..], i, k - 1);
    } else {
      NeverRead(Put(acc, rs[0]), rs[1..], i);
    }
  }

  /** One never read is as it was. */
  lemma {:induction false} NeverRead(acc: map<nat, Value>, rs: seq<Reading>, i: nat)
    requires forall e <- rs :: e.index == i ==> e.value.None?
    ensures i in PutAll(acc, rs) <==> i in acc
    ensures i in acc ==> PutAll(acc, rs)[i] == acc[i]
    decreases |rs|
  {
    if rs != [] {
      assert rs[0] in rs;
      NeverRead(Put(acc, rs[0]), rs[1..], i);
    }
  }

  /** Every message of such segments is read as its readings put one after the other. */
  lemma {:induction false} RepeatedDecode(r: Schema, fs: seq<MessageField>, gs: seq<Segment>, acc: map<nat, Value>,
                                          rest: bytes)
    requires Compiles(r) && (forall f <- fs :: Scoped(r, f.ty)) && AllSelfContained(r, fs, gs)
    ensures DecFields(r, fs, MessageBytes(gs) + ([0] + rest), acc) == Ok(PutAll(acc, Readings(r, fs, gs)), rest)
    decreases |gs|
  {
    if gs == [] {
      NoneRead(r, fs, acc, rest);
    } else {
      FewerRead(r, fs, gs, rest);
      hide *;
      var after := MessageBytes(gs[1..]) + ([0] + rest);
      SegmentRead(r, fs, gs[0], after, acc);
      RepeatedDecode(r, fs, gs[1..], Put(acc, ReadingOf(r, fs, gs[0])), rest);
      PutFirst(acc, Readings(r, fs, gs));
    }
  }

  lemma PutFirst(acc: map<nat, Value>, rs: seq<Reading>)
    requires rs != []
    ensures PutAll(acc, rs) == PutAll(Put(acc, rs[0]), rs[1..])
  {
  }

  lemma NoneRead(r: Schema, fs: seq<MessageField>, acc: map<nat, Value>, rest: bytes)
    requires Compiles(r) && forall f <- fs :: Scoped(r, f.ty)
    ensures DecFields(r, fs, MessageBytes([]) + ([0] + rest), acc) == Ok(PutAll(acc, Readings(r, fs, [])), rest)
  {
    hide Compiles, Scoped, DecodeTag;
    Skipping.EndRead(rest);
    assert MessageBytes([]) + ([0] + rest) == [0] + rest;
  }

  lemma FewerRead(r: Schema, fs: seq<MessageField>, gs: seq<Segment>, rest: bytes)
    requires Compiles(r) && (forall f <- fs :: Scoped(r, f.ty)) && AllSelfContained(r, fs, gs) && gs != []
    ensures AllSelfContained(r, fs, gs[1..]) && SelfContained(r, fs, gs[0])
    ensures forall g <- gs :: g.wireType <= UNIT
    ensures Readings(r, fs, gs) != [] && Readings(r, fs, gs)[0] == ReadingOf(r, fs, gs[0])
    ensures Readings(r, fs, gs)[1..] == Readings(r, fs, gs[1..])
    ensures MessageBytes(gs) + ([0] + rest) == SegmentBytes(gs[0]) + (MessageBytes(gs[1..]) + ([0] + rest))
  {
    hide Compiles, Scoped, ReadingOf, SegmentBytes;
    assert forall g <- gs :: SelfContained(r, fs, g) ==> g.wireType <= UNIT;
    hide SelfContained;
    var first, later, end := SegmentBytes(gs[0]), MessageBytes(gs[1..]), [0] + rest;
    assert first + later + end == first + (later + end);
  }
}
