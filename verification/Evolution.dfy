/**
 * Schema evolution: a reader decodes a writer's bytes to the writer's value, projected to the
 * reader's schema, and stops exactly at their end. The round trip is the case of equal schemas.
 */
module Evolution {
  import opened Wire
  import opened Schema
  import opened Values
  import opened Bits
  import opened Leb128
  import opened Presence
  import opened Encoder
  import opened Decoder
  import opened Compatibility
  import Defaults
  import FixedSizes
  import Skipping

  // ---------------------------------------------------------------- both sides agree on shapes

  /** The two items behind a name both schemas resolve. */
  lemma SharedItem(w: Schema, r: Schema, n: string)
    requires MayTalk(w, r) && Scoped(w, Named(n)) && Scoped(r, Named(n))
    ensures var a, b := Lookup(w, n).value, Lookup(r, n).value;
      CompatibleItem(a, b) && ScopedIn(w, a) && ScopedIn(r, b) && ScopedItem(w, a) && ScopedItem(r, b)
      && Numbered(a) && Numbered(b)
  {
  }

  lemma WireTypesAgree(w: Schema, r: Schema, ty: Type)
    requires MayTalk(w, r) && Scoped(w, ty) && Scoped(r, ty)
    ensures WireType(w, ty) == WireType(r, ty)
  {
    if ty.Named? {
      SharedItem(w, r, ty.name);
    }
  }

  lemma {:induction false} FixedSizesAgree(w: Schema, r: Schema, ty: Type)
    requires MayTalk(w, r) && Scoped(w, ty) && Scoped(r, ty)
    ensures FixedSize(w, ty) == FixedSize(r, ty)
    decreases Rank(w, ty), 1, 0
  {
    if ty.Named? {
      hide FieldsSize;
      SharedItem(w, r, ty.name);
      var a, b := Lookup(w, ty.name).value, Lookup(r, ty.name).value;
      if a.StructItem? {
        OptionalsAgree(a.sfields, b.sfields);
        if !HasOptional(a.sfields) {
          FieldsRankBound(w, ty.name, a.sfields);
          FieldsSizesAgree(w, r, a.sfields, b.sfields);
        }
      }
    }
  }

  ghost predicate SameLayout(a: seq<StructField>, b: seq<StructField>)
  {
    |a| == |b| && forall i :: 0 <= i < |a| ==> a[i].ty == b[i].ty && a[i].optional == b[i].optional
  }

  lemma OptionalsAgree(a: seq<StructField>, b: seq<StructField>)
    requires SameLayout(a, b)
    ensures HasOptional(a) == HasOptional(b) && CountOptional(a) == CountOptional(b)
  {
    if a != [] {
      OptionalsAgree(a[1..], b[1..]);
      assert a == [a[0]] + a[1..] && b == [b[0]] + b[1..];
    }
  }

  lemma {:induction false} FieldsSizesAgree(w: Schema, r: Schema, a: seq<StructField>, b: seq<StructField>)
    requires MayTalk(w, r) && (forall f <- a :: Scoped(w, f.ty)) && (forall f <- b :: Scoped(r, f.ty)) &&
      SameLayout(a, b)
    ensures FieldsSize(w, a) == FieldsSize(r, b)
    decreases FieldsRank(w, a), 0, |a|
  {
    hide FixedSize, Compiles, Evolves;
    if a != [] {
      FixedSizesAgree(w, r, a[0].ty);
      FieldsSizesAgree(w, r, a[1..], b[1..]);
    }
  }

  // ---------------------------------------------------------------- scalars

  predicate IsScalar(ty: Type) { !ty.Array? && !ty.Map? && !ty.Named? }

  lemma ScalarDecodes(w: Schema, r: Schema, ty: Type, v: Value, rest: bytes)
    requires Compiles(w) && Compiles(r) && IsScalar(ty) && Typed(w, ty, v)
    ensures Dec(r, ty, Enc(w, ty, v) + rest) == Ok(v, rest)
  {
    if ty.Str? {
      StringDecodes(v.utf8, rest);
    } else if WireType(r, ty) == VARINT {
      VarintDecodes(w, r, ty, v, rest);
    } else {
      Skipping.TakeExact(Enc(w, ty, v), rest);
      if ty.I8? {
        SignedByte(v.i);
      }
    }
  }

  lemma StringDecodes(utf8: bytes, rest: bytes)
    requires |utf8| < TWO_64 && ValidUtf8(utf8)
    ensures DecodeLeb(Leb(|utf8|) + utf8 + rest) == Ok(|utf8|, utf8 + rest)
    ensures DecStr(|utf8|, utf8 + rest) == Ok(VStr(utf8), rest)
  {
    hide ValidUtf8, Leb, DecodeLeb;
    LebRoundTrip(|utf8|, utf8 + rest);
    assert Leb(|utf8|) + utf8 + rest == Leb(|utf8|) + (utf8 + rest);
    Skipping.TakeExact(utf8, rest);
  }

  lemma VarintDecodes(w: Schema, r: Schema, ty: Type, v: Value, rest: bytes)
    requires Compiles(w) && Compiles(r) && IsScalar(ty) && WireType(r, ty) == VARINT && Typed(w, ty, v)
    ensures Dec(r, ty, Enc(w, ty, v) + rest) == Ok(v, rest)
  {
    hide Compiles, DecodeLeb, Leb, Signed, ZigzagEncode, ZigzagDecode, Pow2, DecItem, EncItem, Rank;
    LebRoundTrip(Skipping.VarintOf(w, ty, v), rest);
    if v.VInt? {
      ZigzagBijection(v.i, 0);
      var width := if ty.I16? then 16 else if ty.I32? then 32 else 64;
      HalfRanges();
      SignedFits(v.i, width);
    }
  }

  lemma HalfRanges()
    ensures Pow2(15) == 0x8000 && Pow2(31) == 0x8000_0000 && Pow2(63) == 0x8000_0000_0000_0000
  {
    Pow2Of16();
    Pow2Of32();
    Pow2Of64();
  }

  // ---------------------------------------------------------------- containers

  ghost predicate BothScope(w: Schema, r: Schema, ty: Type)
  {
    MayTalk(w, r) && Scoped(w, ty) && Scoped(r, ty)
  }

  lemma {:induction false} ElemsDecode(w: Schema, r: Schema, ty: Type, es: seq<Value>, rest: bytes)
    requires BothScope(w, r, ty) && TypedElems(w, ty, es) && |EncElems(w, ty, es)| < TWO_64
    requires LegibleElems(w, r, ty, es)
    ensures DecElems(r, ty, |es|, EncElems(w, ty, es) + rest) == Ok(ProjectElems(r, ty, es), rest)
    decreases es, 0
  {
    hide Compiles, Evolves, Enc, Dec, Project, Typed, Scoped, EncElems, DecElems, TypedElems, ProjectElems;
    hide Legible;
    if es == [] {
      NoElemsDecode(w, r, ty, rest);
    } else {
      ElemsCons(w, ty, es);
      var tail := EncElems(w, ty, es[1..]) + rest;
      assert EncElems(w, ty, es) + rest == Enc(w, ty, es[0]) + tail;
      ValueDecodes(w, r, ty, es[0], tail);
      ElemsDecode(w, r, ty, es[1..], rest);
      ElemsTurn(r, ty, es, Enc(w, ty, es[0]) + tail, tail, rest);
    }
  }

  lemma NoElemsDecode(w: Schema, r: Schema, ty: Type, rest: bytes)
    requires BothScope(w, r, ty)
    ensures TypedElems(w, ty, []) && DecElems(r, ty, 0, EncElems(w, ty, []) + rest) == Ok(ProjectElems(r, ty, []), rest)
  {
    hide Compiles, Evolves, Scoped, Dec;
    assert [] + rest == rest;
  }

  lemma ElemsTurn(r: Schema, ty: Type, es: seq<Value>, buf: bytes, tail: bytes, rest: bytes)
    requires Compiles(r) && Scoped(r, ty) && es != []
    requires Dec(r, ty, buf) == Ok(Project(r, ty, es[0]), tail)
    requires DecElems(r, ty, |es| - 1, tail) == Ok(ProjectElems(r, ty, es[1..]), rest)
    ensures DecElems(r, ty, |es|, buf) == Ok(ProjectElems(r, ty, es), rest)
  {
    hide Compiles, Scoped, Dec, Project;
  }

  lemma {:induction false} EntriesDecode(w: Schema, r: Schema, k: Type, t: Type, es: seq<Entry>, acc: seq<Entry>,
                                         rest: bytes)
    requires BothScope(w, r, k) && BothScope(w, r, t) && TypedEntries(w, k, t, es) && |EncEntries(w, k, t, es)| < TWO_64
    requires LegibleEntries(w, r, k, t, es)
    ensures DecEntries(r, k, t, |es|, EncEntries(w, k, t, es) + rest, acc) ==
      Ok(Collect(ProjectEntries(r, k, t, es), acc), rest)
    decreases es, 0
  {
    hide Compiles, Evolves, Enc, Dec, Project, InsertEntry, Scoped;
    hide DecEntries, EncEntries, EncEntry, ProjectEntry, ProjectEntries, Collect, TypedEntries, TypedEntry,
      LegibleEntry, LegibleEntries;
    if es == [] {
      NoEntriesDecode(w, r, k, t, acc, rest);
    } else {
      EntriesSplit(w, k, t, es, rest);
      LegibleEntriesCons(w, r, k, t, es);
      var e, tail := ProjectEntry(r, k, t, es[0]), EncEntries(w, k, t, es[1..]) + rest;
      EntryDecodes(w, r, k, t, es[0], tail);
      EntriesTurn(r, k, t, |es|, EncEntry(w, k, t, es[0]) + tail, acc, e, tail);
      CollectCons(r, k, t, es, acc);
      EntriesDecode(w, r, k, t, es[1..], InsertEntry(acc, e.key, e.value), rest);
    }
  }

  lemma EntriesTurn(r: Schema, k: Type, t: Type, count: nat, buf: bytes, acc: seq<Entry>, e: Entry, tail: bytes)
    requires Compiles(r) && Scoped(r, k) && Scoped(r, t) && count > 0
    requires Dec(r, k, buf).Ok? && Dec(r, k, buf).value == e.key && Dec(r, t, Dec(r, k, buf).rest) == Ok(e.value, tail)
    ensures DecEntries(r, k, t, count, buf, acc) ==
      DecEntries(r, k, t, count - 1, tail, InsertEntry(acc, e.key, e.value))
  {
    hide Compiles, Dec, InsertEntry;
  }

  lemma CollectCons(r: Schema, k: Type, t: Type, es: seq<Entry>, acc: seq<Entry>)
    requires Compiles(r) && Scoped(r, k) && Scoped(r, t) && es != []
    ensures var e := ProjectEntry(r, k, t, es[0]);
      Collect(ProjectEntries(r, k, t, es), acc) ==
        Collect(ProjectEntries(r, k, t, es[1..]), InsertEntry(acc, e.key, e.value))
  {
    hide Compiles, ProjectEntry, InsertEntry;
    assert ProjectEntries(r, k, t, es)[1..] == ProjectEntries(r, k, t, es[1..]);
  }

  lemma LegibleEntriesCons(w: Schema, r: Schema, k: Type, t: Type, es: seq<Entry>)
    requires Compiles(w) && Scoped(w, k) && Scoped(w, t) && es != [] && LegibleEntries(w, r, k, t, es)
    ensures LegibleEntry(w, r, k, t, es[0]) && LegibleEntries(w, r, k, t, es[1..])
  {
    hide Compiles, Scoped, LegibleEntry;
  }

  lemma NoEntriesDecode(w: Schema, r: Schema, k: Type, t: Type, acc: seq<Entry>, rest: bytes)
    requires BothScope(w, r, k) && BothScope(w, r, t)
    ensures TypedEntries(w, k, t, [])
    ensures DecEntries(r, k, t, 0, EncEntries(w, k, t, []) + rest, acc) ==
      Ok(Collect(ProjectEntries(r, k, t, []), acc), rest)
  {
    hide Compiles, Evolves, Scoped, Dec;
    EntriesNil(w, k, t);
    assert [] + rest == rest;
  }

  lemma EntriesSplit(w: Schema, k: Type, t: Type, es: seq<Entry>, rest: bytes)
    requires Compiles(w) && Scoped(w, k) && Scoped(w, t) && TypedEntries(w, k, t, es) && es != []
    ensures TypedEntry(w, k, t, es[0]) && TypedEntries(w, k, t, es[1..])
    ensures EncEntries(w, k, t, es) + rest == EncEntry(w, k, t, es[0]) + (EncEntries(w, k, t, es[1..]) + rest)
    ensures |EncEntries(w, k, t, es)| == |EncEntry(w, k, t, es[0])| + |EncEntries(w, k, t, es[1..])|
  {
    hide Compiles, EncEntry, EncEntries, TypedEntry, TypedEntries, Scoped;
    EntriesCons(w, k, t, es);
    var a, b := EncEntry(w, k, t, es[0]), EncEntries(w, k, t, es[1..]);
    assert a + b + rest == a + (b + rest);
  }

  lemma {:induction false} EntryDecodes(w: Schema, r: Schema, k: Type, t: Type, e: Entry, rest: bytes)
    requires BothScope(w, r, k) && BothScope(w, r, t) && TypedEntry(w, k, t, e) && |EncEntry(w, k, t, e)| < TWO_64
    requires LegibleEntry(w, r, k, t, e)
    ensures var key := Dec(r, k, EncEntry(w, k, t, e) + rest);
      var p := ProjectEntry(r, k, t, e);
      key.Ok? && key.value == p.key && Dec(r, t, key.rest) == Ok(p.value, rest)
    decreases e, 0
  {
    hide Compiles, Evolves, Enc, Dec, Project, Legible, Scoped, Typed;
    var tail := Enc(w, t, e.value) + rest;
    assert EncEntry(w, k, t, e) + rest == Enc(w, k, e.key) + tail;
    ValueDecodes(w, r, k, e.key, tail);
    ValueDecodes(w, r, t, e.value, rest);
  }

  lemma {:induction false} SlotsDecode(w: Schema, r: Schema, a: seq<StructField>, b: seq<StructField>,
                                       slots: seq<Slot>, rest: bytes)
    requires MayTalk(w, r) && SameLayout(a, b) && TypedSlots(w, a, slots)
    requires (forall f <- a :: Scoped(w, f.ty)) && (forall f <- b :: Scoped(r, f.ty)) &&
      |EncSlots(w, a, slots)| < TWO_64
    requires |a| == |slots| && LegibleSlots(w, r, a, slots)
    ensures CountOptional(a) == CountOptional(b)
    ensures DecSlots(r, b, Flags(a, slots), EncSlots(w, a, slots) + rest) == Ok(ProjectSlots(r, b, slots), rest)
    decreases slots, 0
  {
    hide Compiles, Evolves, EncSlot, Dec, ProjectSlot, DecSlots, EncSlots, Flags, ProjectSlots;
    hide TypedSlots, TypedSlot, SameLayout, CountOptional, Scoped, LegibleSlots, LegibleSlot;
    OptionalsAgree(a, b);
    SameLength(w, a, b, slots);
    if slots == [] {
      NoSlotsDecode(w, r, rest);
    } else {
      TypedSlotsCons(w, a, b, slots);
      LegibleSlotsCons(w, r, a, slots);
      FlagsCons(a, slots);
      ProjectSlotsCons(r, b, slots);
      var tail := EncSlots(w, a[1..], slots[1..]) + rest;
      SlotsCons(w, a, slots, rest);
      SlotDecodes(w, r, a[0].ty, a[0].optional, slots[0], tail);
      SlotsTurn(r, b, Flags(a, slots), EncSlot(w, a[0].ty, a[0].optional, slots[0]) + tail,
        ProjectSlot(r, b[0].ty, slots[0]), tail);
      SlotsDecode(w, r, a[1..], b[1..], slots[1..], rest);
    }
  }

  lemma SameLength(w: Schema, a: seq<StructField>, b: seq<StructField>, slots: seq<Slot>)
    requires SameLayout(a, b) && TypedSlots(w, a, slots)
    ensures |a| == |b| == |slots|
  {
    hide TypedSlot;
  }

  lemma NoSlotsDecode(w: Schema, r: Schema, rest: bytes)
    requires MayTalk(w, r)
    ensures TypedSlots(w, [], []) && Flags([], []) == [] && CountOptional([]) == 0
    ensures DecSlots(r, [], [], EncSlots(w, [], []) + rest) == Ok(ProjectSlots(r, [], []), rest)
  {
    hide Compiles, Evolves;
    assert EncSlots(w, [], []) + rest == rest;
  }

  lemma TypedSlotsCons(w: Schema, a: seq<StructField>, b: seq<StructField>, slots: seq<Slot>)
    requires TypedSlots(w, a, slots) && SameLayout(a, b) && a != []
    ensures |a| == |b| == |slots| && a[0].ty == b[0].ty && a[0].optional == b[0].optional && SameLayout(a[1..], b[1..])
    ensures TypedSlot(w, a[0].ty, a[0].optional, slots[0]) && TypedSlots(w, a[1..], slots[1..])
  {
    hide TypedSlot;
  }

  lemma LegibleSlotsCons(w: Schema, r: Schema, a: seq<StructField>, slots: seq<Slot>)
    requires Compiles(w) && (forall f <- a :: Scoped(w, f.ty)) && |a| == |slots| > 0 && LegibleSlots(w, r, a, slots)
    ensures LegibleSlot(w, r, a[0].ty, slots[0]) && LegibleSlots(w, r, a[1..], slots[1..])
  {
    hide Compiles, Scoped, LegibleSlot;
  }

  lemma FlagsCons(a: seq<StructField>, slots: seq<Slot>)
    requires |a| == |slots| && a != []
    ensures a[0].optional ==> Flags(a, slots) == [slots[0].Present?] + Flags(a[1..], slots[1..])
    ensures (if a[0].optional then Flags(a, slots)[1..] else Flags(a, slots)) == Flags(a[1..], slots[1..])
  {
  }

  lemma ProjectSlotsCons(r: Schema, b: seq<StructField>, slots: seq<Slot>)
    requires Compiles(r) && (forall f <- b :: Scoped(r, f.ty)) && |b| == |slots| && b != []
    ensures ProjectSlots(r, b, slots) == [ProjectSlot(r, b[0].ty, slots[0])] + ProjectSlots(r, b[1..], slots[1..])
  {
    hide Compiles, ProjectSlot;
  }

  lemma SlotsCons(w: Schema, a: seq<StructField>, slots: seq<Slot>, rest: bytes)
    requires Compiles(w) && (forall f <- a :: Scoped(w, f.ty)) && TypedSlots(w, a, slots) && slots != []
    ensures EncSlots(w, a, slots) + rest ==
      EncSlot(w, a[0].ty, a[0].optional, slots[0]) + (EncSlots(w, a[1..], slots[1..]) + rest)
    ensures |EncSlots(w, a, slots)| ==
      |EncSlot(w, a[0].ty, a[0].optional, slots[0])| + |EncSlots(w, a[1..], slots[1..])|
  {
    FirstSlot(w, a, slots);
    hide *;
    Regrouped(EncSlot(w, a[0].ty, a[0].optional, slots[0]), EncSlots(w, a[1..], slots[1..]), rest);
  }

  lemma FirstSlot(w: Schema, a: seq<StructField>, slots: seq<Slot>)
    requires Compiles(w) && (forall f <- a :: Scoped(w, f.ty)) && TypedSlots(w, a, slots) && slots != []
    ensures EncSlots(w, a, slots) == EncSlot(w, a[0].ty, a[0].optional, slots[0]) + EncSlots(w, a[1..], slots[1..])
  {
    hide Compiles, EncSlot, Scoped, TypedSlot;
  }

  lemma Regrouped(a: bytes, b: bytes, c: bytes)
    ensures a + b + c == a + (b + c)
  {
  }

  /** One field of a struct on the reader's side; `slot` is absent exactly when its flag is off. */
  lemma SlotsTurn(r: Schema, b: seq<StructField>, flags: seq<bool>, buf: bytes, slot: Slot, tail: bytes)
    requires Compiles(r) && (forall f <- b :: Scoped(r, f.ty)) && |flags| == CountOptional(b) && b != []
    requires slot.Absent? ==> b[0].optional && !flags[0] && buf == tail
    requires slot.Present? ==> (b[0].optional ==> flags[0]) && Dec(r, b[0].ty, buf) == Ok(slot.value, tail)
    ensures var p := DecSlots(r, b[1..], if b[0].optional then flags[1..] else flags, tail);
      p.Ok? ==> DecSlots(r, b, flags, buf) == Ok([slot] + p.value, p.rest)
  {
    hide Compiles, Dec;
  }

  lemma {:induction false} SlotDecodes(w: Schema, r: Schema, ty: Type, optional: bool, slot: Slot, rest: bytes)
    requires BothScope(w, r, ty) && TypedSlot(w, ty, optional, slot) && |EncSlot(w, ty, optional, slot)| < TWO_64
    requires LegibleSlot(w, r, ty, slot)
    ensures ProjectSlot(r, ty, slot).Absent? == slot.Absent?
    ensures slot.Absent? ==> optional && EncSlot(w, ty, optional, slot) + rest == rest
    ensures slot.Present? ==>
      Dec(r, ty, EncSlot(w, ty, optional, slot) + rest) == Ok(ProjectSlot(r, ty, slot).value, rest)
    decreases slot, 5
  {
    hide Compiles, Evolves, Enc, Dec, Project, Legible;
    assert [] + rest == rest;
    if slot.Present? {
      ValueDecodes(w, r, ty, slot.value, rest);
    }
  }

  // ---------------------------------------------------------------- messages

  /** The fields of the writer's message that the reader knows, as it takes them in. */
  ghost function Known(r: Schema, rf: seq<MessageField>, v: Value): map<nat, Value>
    requires Compiles(r) && (forall g <- rf :: Scoped(r, g.ty)) && v.VMsg?
  {
    map i | i in v.fields && i in Indices(rf) :: Project(r, FieldType(rf, i), v.fields[i])
  }

  ghost function Only(m: map<nat, Value>, keys: set<nat>): map<nat, Value>
  {
    map i | i in m && i in keys :: m[i]
  }

  lemma OnlyUnion(m: map<nat, Value>, a: set<nat>, b: set<nat>, acc: map<nat, Value>)
    ensures acc + Only(m, a) + Only(m, b) == acc + Only(m, a + b)
  {
  }

  /** Those among the known fields that `order` lists. */
  ghost function Received(r: Schema, rf: seq<MessageField>, order: seq<MessageField>, v: Value): map<nat, Value>
    requires Compiles(r) && (forall g <- rf :: Scoped(r, g.ty)) && v.VMsg?
  {
    Only(Known(r, rf, v), Indices(order))
  }

  ghost predicate FieldsContext(w: Schema, r: Schema, wf: seq<MessageField>, rf: seq<MessageField>)
  {
    MayTalk(w, r) &&
    (forall f <- wf :: Scoped(w, f.ty) && f.index > 0) &&
    (forall g <- rf :: Scoped(r, g.ty)) &&
    (forall f <- wf, g <- rf :: f.index == g.index ==> f.ty == g.ty)
  }

  /** One turn of the reader's loop on a field it knows, and on one it does not. */
  lemma FieldsTurn(r: Schema, rf: seq<MessageField>, t: FieldTag, payload: bytes, after: bytes, acc: map<nat, Value>)
    requires Compiles(r) && (forall g <- rf :: Scoped(r, g.ty)) && t.index > 0 && t.wireType <= UNIT
    ensures var buf, f := Leb(Tag(t.index, t.wireType)) + payload + after, FieldAt(rf, t.index);
      (f.Some? && DecField(r, f.value.ty, payload + after).Ok? &&
        DecField(r, f.value.ty, payload + after).rest == after ==>
        DecFields(r, rf, buf, acc) ==
          DecFields(r, rf, after, acc[t.index := DecField(r, f.value.ty, payload + after).value]))
      && (f.None? && Skip(t.wireType, payload + after) == Ok((), after) ==>
        DecFields(r, rf, buf, acc) == DecFields(r, rf, after, acc))
  {
    hide DecodeTag, Skip, DecField, Leb, Tag, Compiles;
    Skipping.TagRead(t.index, t.wireType, payload + after);
    assert Leb(Tag(t.index, t.wireType)) + payload + after == Leb(Tag(t.index, t.wireType)) + (payload + after);
  }

  lemma {:induction false} SentDecodes(w: Schema, r: Schema, wf: seq<MessageField>, rf: seq<MessageField>,
                                       f: MessageField, v: Value, acc: map<nat, Value>, after: bytes)
    requires FieldsContext(w, r, wf, rf) && v.VMsg? && TypedFields(w, wf, v)
    requires FieldAt(wf, f.index) == Some(f) && |EncSent(w, wf, f, v)| < TWO_64 && LegibleFields(w, r, wf, rf, v)
    ensures DecFields(r, rf, EncSent(w, wf, f, v) + after, acc) ==
      DecFields(r, rf, after, acc + Received(r, rf, [f], v))
    decreases v, 0
  {
    hide Compiles, Evolves, DecFields, EncPayload, DecField, Skip, Project, Countable;
    hide Received, Legible;
    if f.index !in v.fields {
      assert [] + after == after;
      ReceivedOne(r, rf, f, v, acc);
    } else {
      var w0, t := v.fields[f.index], FieldTag(f.index, WireType(w, f.ty));
      var payload := EncPayload(w, f.ty, w0);
      FieldsTurn(r, rf, t, payload, after, acc);
      ReceivedOne(r, rf, f, v, acc);
      if FieldAt(rf, f.index).Some? {
        PayloadDecodes(w, r, f.ty, w0, after);
      } else {
        Skipping.SkipPayload(w, f.ty, w0, after);
      }
    }
  }

  lemma ReceivedOne(r: Schema, rf: seq<MessageField>, f: MessageField, v: Value, acc: map<nat, Value>)
    requires Compiles(r) && (forall g <- rf :: Scoped(r, g.ty)) && v.VMsg?
    ensures acc + Received(r, rf, [f], v) ==
      if f.index in v.fields && FieldAt(rf, f.index).Some? then
        acc[f.index := Project(r, FieldAt(rf, f.index).value.ty, v.fields[f.index])]
      else acc
  {
    hide Project, Compiles;
    assert Indices([f]) == {f.index};
    assert f.index in Indices(rf) <==> FieldAt(rf, f.index).Some?;
  }

  /** The loop over a whole message, in whatever order its fields were written. */
  lemma {:induction false} FieldsDecode(w: Schema, r: Schema, wf: seq<MessageField>, rf: seq<MessageField>,
                                        order: seq<MessageField>, v: Value, acc: map<nat, Value>, rest: bytes)
    requires FieldsContext(w, r, wf, rf) && v.VMsg? && TypedFields(w, wf, v) && Sendable(w, wf, order)
    requires |EncFields(w, wf, order, v)| < TWO_64 && LegibleFields(w, r, wf, rf, v)
    ensures DecFields(r, rf, EncFields(w, wf, order, v) + ([0] + rest), acc) ==
      Ok(acc + Received(r, rf, order, v), rest)
    decreases v, 1, |order|
  {
    hide Compiles, Evolves, EncSent, DecField, Skip, Project, LegibleFields, Typed, Scoped, TypedFields;
    if order == [] {
      Skipping.EndRead(rest);
      assert EncFields(w, wf, order, v) + ([0] + rest) == [0] + rest;
      assert acc + Received(r, rf, order, v) == acc;
    } else {
      hide DecFields, EncFields;
      var f, more := order[0], order[1..];
      var after := EncFields(w, wf, more, v) + ([0] + rest);
      FieldsCons(w, wf, order, v, [0] + rest);
      SentLength(w, wf, order, v);
      SentDecodes(w, r, wf, rf, f, v, acc, after);
      FieldsDecode(w, r, wf, rf, more, v, acc + Received(r, rf, [f], v), rest);
      ReceivedCons(r, rf, order, v, acc);
    }
  }

  lemma SentLength(w: Schema, wf: seq<MessageField>, order: seq<MessageField>, v: Value)
    requires Compiles(w) && v.VMsg? && TypedFields(w, wf, v) && Sendable(w, wf, order) && order != []
    ensures |EncFields(w, wf, order, v)| == |EncSent(w, wf, order[0], v)| + |EncFields(w, wf, order[1..], v)|
  {
    hide EncSent, TypedFields, Compiles;
  }

  lemma ReceivedCons(r: Schema, rf: seq<MessageField>, order: seq<MessageField>, v: Value, acc: map<nat, Value>)
    requires Compiles(r) && (forall g <- rf :: Scoped(r, g.ty)) && v.VMsg? && order != []
    ensures acc + Received(r, rf, [order[0]], v) + Received(r, rf, order[1..], v) == acc + Received(r, rf, order, v)
  {
    hide Known, Compiles, Only;
    assert order == [order[0]] + order[1..];
    assert Indices(order) == Indices([order[0]]) + Indices(order[1..]);
    OnlyUnion(Known(r, rf, v), Indices([order[0]]), Indices(order[1..]), acc);
  }

  // ---------------------------------------------------------------- items

  lemma {:induction false} ItemDecodes(w: Schema, r: Schema, n: string, v: Value, rest: bytes)
    requires BothScope(w, r, Named(n)) && Typed(w, Named(n), v) && |Enc(w, Named(n), v)| < TWO_64
    requires LegibleItem(w, r, n, v)
    ensures DecItem(r, n, Enc(w, Named(n), v) + rest) == Ok(ProjectItem(r, n, v), rest)
    decreases v, 3
  {
    hide Compiles, Evolves, EncItem, DecItem, ProjectItem, CompatibleItem, LegibleItem;
    SharedItem(w, r, n);
    assert TypedItem(w, Lookup(w, n).value, v);
    match Lookup(w, n).value
    case StructItem(_, _) => StructDecodes(w, r, n, v, rest);
    case MessageItem(_, _) => MessageDecodes(w, r, n, v, rest);
    case EnumItem(_, _) => EnumDecodes(w, r, n, v, rest);
    case UnionItem(_, _) => UnionDecodes(w, r, n, v, rest);
  }

  /** A struct is its presence bits, then its fields. */
  lemma ReadStruct(r: Schema, n: string, buf: bytes, flags: seq<bool>, tail: bytes)
    requires Compiles(r) && Scoped(r, Named(n)) && Lookup(r, n).value.StructItem?
    requires DecodePresence(CountOptional(Lookup(r, n).value.sfields), buf) == Ok(flags, tail)
    ensures ScopedItem(r, Lookup(r, n).value)
    ensures DecItem(r, n, buf) ==
      var p := DecSlots(r, Lookup(r, n).value.sfields, flags, tail);
      if p.Err? then p.PropagateFailure() else Ok(VStruct(p.value), p.rest)
  {
    assert ScopedItem(r, Lookup(r, n).value);
    hide Compiles, DecSlots, DecodePresence, CountOptional;
  }

  lemma WrittenStruct(w: Schema, n: string, v: Value)
    requires Compiles(w) && Scoped(w, Named(n)) && Lookup(w, n).value.StructItem? && TypedItem(w, Lookup(w, n).value, v)
    ensures var fs := Lookup(w, n).value.sfields;
      ScopedItem(w, Lookup(w, n).value) && TypedSlots(w, fs, v.slots) &&
      EncItem(w, Lookup(w, n).value, v) == PresenceBits(Flags(fs, v.slots)) + EncSlots(w, fs, v.slots)
  {
    assert ScopedItem(w, Lookup(w, n).value);
    hide Compiles, EncSlots, TypedSlot, PresenceBits, Flags;
  }

  lemma {:induction false} StructDecodes(w: Schema, r: Schema, n: string, v: Value, rest: bytes)
    requires BothScope(w, r, Named(n)) && Lookup(w, n).value.StructItem? && TypedItem(w, Lookup(w, n).value, v)
    requires |EncItem(w, Lookup(w, n).value, v)| < TWO_64
    requires LegibleItem(w, r, n, v)
    ensures DecItem(r, n, EncItem(w, Lookup(w, n).value, v) + rest) == Ok(ProjectItem(r, n, v), rest)
    decreases v, 2
  {
    hide Compiles, Evolves, EncSlots, DecSlots, ProjectSlots, Flags, PresenceBits, DecodePresence, EncItem, DecItem,
      LegibleSlots;
    SharedItem(w, r, n);
    WrittenStruct(w, n, v);
    var a, b := Lookup(w, n).value.sfields, Lookup(r, n).value.sfields;
    OptionalsAgree(a, b);
    var flags, tail := Flags(a, v.slots), EncSlots(w, a, v.slots) + rest;
    PresenceRoundTrip(flags, tail);
    assert PresenceBits(flags) + EncSlots(w, a, v.slots) + rest == PresenceBits(flags) + tail;
    ReadStruct(r, n, PresenceBits(flags) + tail, flags, tail);
    SlotsDecode(w, r, a, b, v.slots, rest);
  }

  lemma {:induction false} MessageDecodes(w: Schema, r: Schema, n: string, v: Value, rest: bytes)
    requires BothScope(w, r, Named(n)) && Lookup(w, n).value.MessageItem? && TypedItem(w, Lookup(w, n).value, v)
    requires |EncItem(w, Lookup(w, n).value, v)| < TWO_64
    requires LegibleItem(w, r, n, v)
    ensures DecItem(r, n, EncItem(w, Lookup(w, n).value, v) + rest) == Ok(ProjectItem(r, n, v), rest)
    decreases v, 2
  {
    hide Compiles, Evolves, EncFields, DecFields, ProjectFields, DefaultFields, Countable, Received, LegibleFields;
    SharedItem(w, r, n);
    var wf, rf := Lookup(w, n).value.mfields, Lookup(r, n).value.mfields;
    AllSendable(w, Lookup(w, n).value);
    var order := SortByIndex(wf);
    FieldsDecode(w, r, wf, rf, order, v, DefaultFields(r, n), rest);
    assert EncFields(w, wf, order, v) + [0] + rest == EncFields(w, wf, order, v) + ([0] + rest);
    AllReceived(w, r, n, wf, order, v);
  }

  /** Defaults overwritten by everything received: the field-by-field projection. */
  lemma AllReceived(w: Schema, r: Schema, n: string, wf: seq<MessageField>, order: seq<MessageField>, v: Value)
    requires Compiles(r) && Scoped(r, Named(n)) && Lookup(r, n).value.MessageItem? && v.VMsg? && TypedFields(w, wf, v)
    requires forall f <- wf :: f in order
    requires forall g <- Lookup(r, n).value.mfields :: Scoped(r, g.ty)
    ensures DefaultFields(r, n) + Received(r, Lookup(r, n).value.mfields, order, v) == ProjectFields(r, n, v)
  {
    hide Compiles, Project, Typed, Default;
    var rf, dflt := Lookup(r, n).value.mfields, DefaultFields(r, n);
    DefaultKeys(r, n);
    AllSent(w, r, wf, rf, order, v);
    assert (dflt + Known(r, rf, v)).Keys == ProjectFields(r, n, v).Keys;
  }

  lemma AllSent(w: Schema, r: Schema, wf: seq<MessageField>, rf: seq<MessageField>, order: seq<MessageField>, v: Value)
    requires Compiles(r) && (forall g <- rf :: Scoped(r, g.ty)) && v.VMsg? && TypedFields(w, wf, v)
    requires forall f <- wf :: f in order
    ensures Received(r, rf, order, v) == Known(r, rf, v)
  {
    hide Compiles, Project, Typed, Default, Scoped;
    forall i <- v.fields ensures i in Indices(order) {
      assert FieldAt(wf, i).value in order;
    }
  }

  lemma DefaultKeys(r: Schema, n: string)
    requires Compiles(r) && Scoped(r, Named(n)) && Lookup(r, n).value.MessageItem?
    ensures DefaultFields(r, n).Keys <= Indices(Lookup(r, n).value.mfields)
  {
    hide Default;
  }

  lemma EnumDecodes(w: Schema, r: Schema, n: string, v: Value, rest: bytes)
    requires BothScope(w, r, Named(n)) && Lookup(w, n).value.EnumItem? && TypedItem(w, Lookup(w, n).value, v)
    ensures DecItem(r, n, EncItem(w, Lookup(w, n).value, v) + rest) == Ok(ProjectItem(r, n, v), rest)
  {
    hide Compiles, Evolves, DecodeLeb, Leb;
    SharedItem(w, r, n);
    var variant :| variant in Lookup(w, n).value.evariants && variant.index == v.index;
    LebRoundTrip(v.index, rest);
  }

  /** A union is decoded by its tag: a known unit variant is done, another one reads its payload. */
  lemma ReadVariant(r: Schema, n: string, tag: nat, payload: bytes)
    requires Compiles(r) && Scoped(r, Named(n)) && Lookup(r, n).value.UnionItem? && tag < TWO_64
    requires VariantAt(Lookup(r, n).value.uvariants, tag / 8 % TWO_32).Some?
    ensures var index, ty := tag / 8 % TWO_32, VariantAt(Lookup(r, n).value.uvariants, tag / 8 % TWO_32).value.ty;
      ScopedItem(r, Lookup(r, n).value) && DecItem(r, n, Leb(tag) + payload) ==
        if ty.None? then Ok(VUnion(index, Absent), payload)
        else
          var p := DecField(r, ty.value, payload);
          if p.Err? then p.PropagateFailure() else Ok(VUnion(index, Present(p.value)), p.rest)
  {
    UnionItemDecoded(r, n, Leb(tag) + payload);
    hide Compiles, DecItem, DecField, DecodeLeb, Leb, VariantAt;
    LebRoundTrip(tag, payload);
  }

  lemma UnionItemDecoded(r: Schema, n: string, buf: bytes)
    requires Compiles(r) && Scoped(r, Named(n)) && Lookup(r, n).value.UnionItem?
    ensures ScopedItem(r, Lookup(r, n).value) && DecItem(r, n, buf) == DecUnion(r, n, buf)
  {
    assert ScopedItem(r, Lookup(r, n).value);
    hide Compiles, DecUnion, ScopedItem;
  }

  lemma WrittenVariant(w: Schema, n: string, v: Value)
    requires Compiles(w) && Scoped(w, Named(n)) && Lookup(w, n).value.UnionItem? && TypedItem(w, Lookup(w, n).value, v)
    ensures var variant := VariantAt(Lookup(w, n).value.uvariants, v.tag).value;
      ScopedItem(w, Lookup(w, n).value) && TypedPayload(w, variant.ty, v.payload) && variant.index == v.tag &&
      EncItem(w, Lookup(w, n).value, v) == EncVariant(w, variant, v.payload)
  {
    assert ScopedItem(w, Lookup(w, n).value);
    hide Compiles, EncVariant, TypedPayload;
  }

  lemma {:induction false} UnionDecodes(w: Schema, r: Schema, n: string, v: Value, rest: bytes)
    requires BothScope(w, r, Named(n)) && Lookup(w, n).value.UnionItem? && TypedItem(w, Lookup(w, n).value, v)
    requires |EncItem(w, Lookup(w, n).value, v)| < TWO_64
    requires LegibleItem(w, r, n, v)
    ensures DecItem(r, n, EncItem(w, Lookup(w, n).value, v) + rest) == Ok(ProjectItem(r, n, v), rest)
    decreases v, 2
  {
    hide Compiles, Evolves, DecField, EncPayload, Leb, ProjectSlot, Countable, Tag, UnitTag, EncItem, DecItem, Legible,
      Typed;
    SharedItem(w, r, n);
    WrittenVariant(w, n, v);
    var variant := VariantAt(Lookup(w, n).value.uvariants, v.tag).value;
    assert variant in Lookup(w, n).value.uvariants &&
      VariantAt(Lookup(r, n).value.uvariants, v.tag).value.ty == variant.ty;
    match variant.ty
    case None =>
      Skipping.TagParts(variant.index, UNIT);
      ReadVariant(r, n, UnitTag(variant.index), rest);
    case Some(t) =>
      var tag, payload := Tag(variant.index, WireType(w, t)), EncPayload(w, t, v.payload.value);
      Skipping.TagParts(variant.index, WireType(w, t));
      ReadVariant(r, n, tag, payload + rest);
      assert Leb(tag) + payload + rest == Leb(tag) + (payload + rest);
      VariantPayload(w, r, t, v.payload, rest);
  }

  lemma {:induction false} VariantPayload(w: Schema, r: Schema, t: Type, payload: Slot, rest: bytes)
    requires BothScope(w, r, t) && payload.Present? && Typed(w, t, payload.value) &&
      LegibleField(w, r, t, payload.value)
    requires |EncPayload(w, t, payload.value)| < TWO_64
    ensures ProjectSlot(r, t, payload).Present?
    ensures DecField(r, t, EncPayload(w, t, payload.value) + rest) == Ok(ProjectSlot(r, t, payload).value, rest)
    decreases payload, 7
  {
    PayloadDecodes(w, r, t, payload.value, rest);
  }

  // ---------------------------------------------------------------- field payloads

  lemma {:induction false} PayloadDecodes(w: Schema, r: Schema, ty: Type, v: Value, rest: bytes)
    requires BothScope(w, r, ty) && Typed(w, ty, v) && LegibleField(w, r, ty, v) && |EncPayload(w, ty, v)| < TWO_64
    ensures DecField(r, ty, EncPayload(w, ty, v) + rest) == Ok(Project(r, ty, v), rest)
    decreases v, 7
  {
    hide Compiles, Evolves, Enc, Dec, Project, EncDelimited, DecDelimited, Leb, Countable, Typed;
    hide DecField, Scoped, WireType;
    WireTypesAgree(w, r, ty);
    if WireType(w, ty) == BYTES {
      var content := EncDelimited(w, ty, v);
      assert Leb(|content|) + content + rest == Leb(|content|) + (content + rest);
      LengthRead(r, ty, |content|, content + rest);
      DelimitedDecodes(w, r, ty, v, rest);
    } else {
      NoLength(r, ty, Enc(w, ty, v) + rest);
      ValueDecodes(w, r, ty, v, rest);
    }
  }

  lemma LengthRead(r: Schema, ty: Type, len: nat, buf: bytes)
    requires Compiles(r) && Scoped(r, ty) && WireType(r, ty) == BYTES && len < TWO_64
    ensures DecField(r, ty, Leb(len) + buf) == DecDelimited(r, ty, len, buf)
  {
    hide Compiles, DecDelimited, DecodeLeb, Leb, Scoped, WireType;
    LebRoundTrip(len, buf);
  }

  lemma NoLength(r: Schema, ty: Type, buf: bytes)
    requires Compiles(r) && Scoped(r, ty) && WireType(r, ty) != BYTES
    ensures DecField(r, ty, buf) == Dec(r, ty, buf)
  {
    hide Compiles, Dec, Scoped, WireType;
  }

  lemma {:induction false} DelimitedDecodes(w: Schema, r: Schema, ty: Type, v: Value, rest: bytes)
    requires BothScope(w, r, ty) && Typed(w, ty, v) && LegibleField(w, r, ty, v) && WireType(w, ty) == BYTES
    requires |EncDelimited(w, ty, v)| < TWO_64
    ensures DecDelimited(r, ty, |EncDelimited(w, ty, v)|, EncDelimited(w, ty, v) + rest) == Ok(Project(r, ty, v), rest)
    decreases v, 6
  {
    hide Compiles, Evolves, Enc, Dec, EncElems, EncEntries, DecSliceElems, DecSliceEntries;
    var content := EncDelimited(w, ty, v);
    assert (content + rest)[..|content|] == content && (content + rest)[|content|..] == rest;
    match ty
    case Str => StringDecodes(v.utf8, rest);
    case Array(t) => SliceOfElems(w, r, t, v.elems);
    case Map(k, t) => SliceOfEntries(w, r, k, t, v.entries);
    case Named(_) => ValueDecodes(w, r, ty, v, rest);
  }

  lemma CountOf(count: nat, size: nat)
    requires size > 0
    ensures CountIn(count * size, size) == Ok(count, [])
  {
  }

  /** Either way of telling the count tells it right. */
  lemma CountRead(size: Option<nat>, count: nat, data: bytes)
    requires count < TWO_64 && size != Some(0) && (size.Some? ==> |data| == count * size.value)
    ensures SliceCount(size, (if size.Some? then [] else Leb(count)) + data) == Ok(count, data)
  {
    hide CountIn, DecodeLeb, Leb;
    if size.Some? {
      CountOf(count, size.value);
      assert [] + data == data;
    } else {
      LebRoundTrip(count, data);
    }
  }

  lemma {:induction false} SliceOfElems(w: Schema, r: Schema, t: Type, es: seq<Value>)
    requires BothScope(w, r, t) && TypedElems(w, t, es) && |es| < TWO_64 && FixedSize(w, t) != Some(0)
    requires |EncDelimited(w, Array(t), VArr(es))| < TWO_64 && LegibleElems(w, r, t, es)
    ensures var p := DecSliceElems(r, t, EncDelimited(w, Array(t), VArr(es)));
      p.Ok? && p.value == VArr(ProjectElems(r, t, es))
    decreases es, 8
  {
    hide Compiles, Evolves, EncElems, DecElems, ProjectElems, Leb, FixedSize, SliceCount, TypedElems, Scoped,
      LegibleElems;
    FixedSizesAgree(w, r, t);
    var data, size := EncElems(w, t, es), FixedSize(w, t);
    assert data + [] == data;
    ElemsDecode(w, r, t, es, []);
    if size.Some? {
      FixedSizes.ElemsSize(w, t, es, size.value);
    }
    CountRead(size, |es|, data);
  }

  lemma {:induction false} SliceOfEntries(w: Schema, r: Schema, k: Type, t: Type, es: seq<Entry>)
    requires BothScope(w, r, k) && BothScope(w, r, t) && TypedEntries(w, k, t, es) && DistinctKeys(es) && |es| < TWO_64
    requires EntrySize(w, k, t) != Some(0) && |EncDelimited(w, Map(k, t), VMap(es))| < TWO_64
    requires LegibleEntries(w, r, k, t, es)
    ensures var p := DecSliceEntries(r, k, t, EncDelimited(w, Map(k, t), VMap(es)));
      p.Ok? && p.value == VMap(Collect(ProjectEntries(r, k, t, es), []))
    decreases es, 8
  {
    hide Compiles, Evolves, EncEntries, DecEntries, ProjectEntries, Collect, Leb, EntrySize, SliceCount;
    hide TypedEntries, DistinctKeys, Scoped, LegibleEntries;
    EntrySizesAgree(w, r, k, t);
    var data, size := EncEntries(w, k, t, es), EntrySize(w, k, t);
    assert data + [] == data;
    EntriesDecode(w, r, k, t, es, [], []);
    if size.Some? {
      FixedSizes.EntriesSize(w, k, t, es, size.value);
    }
    CountRead(size, |es|, data);
  }

  lemma EntrySizesAgree(w: Schema, r: Schema, k: Type, t: Type)
    requires BothScope(w, r, k) && BothScope(w, r, t)
    ensures EntrySize(w, k, t) == EntrySize(r, k, t)
  {
    hide Compiles, Evolves, FixedSize;
    FixedSizesAgree(w, r, k);
    FixedSizesAgree(w, r, t);
  }

  // ---------------------------------------------------------------- the theorem

  /**
   * Deep schema evolution. Whatever legible value a writer encodes, a reader with a compatible
   * schema decodes to that value projected to the reader's schema, at any nesting depth, leaving
   * exactly what follows.
   */
  lemma {:induction false} ValueDecodes(w: Schema, r: Schema, ty: Type, v: Value, rest: bytes)
    requires BothScope(w, r, ty) && Typed(w, ty, v) && |Enc(w, ty, v)| < TWO_64 && Legible(w, r, ty, v)
    ensures Dec(r, ty, Enc(w, ty, v) + rest) == Ok(Project(r, ty, v), rest)
    decreases v, 5
  {
    match ty
    case Array(t) => ArrayDecodes(w, r, t, v.elems, rest);
    case Map(k, t) => MapDecodes(w, r, k, t, v.entries, rest);
    case Named(n) => NamedDecodes(w, r, n, v, rest);
    case _ => ScalarDecodes(w, r, ty, v, rest);
  }

  lemma {:induction false} NamedDecodes(w: Schema, r: Schema, n: string, v: Value, rest: bytes)
    requires BothScope(w, r, Named(n)) && Typed(w, Named(n), v) && |Enc(w, Named(n), v)| < TWO_64 &&
      LegibleItem(w, r, n, v)
    ensures Dec(r, Named(n), Enc(w, Named(n), v) + rest) == Ok(Project(r, Named(n), v), rest)
    decreases v, 4
  {
    hide Compiles, Evolves, EncItem, DecItem, ProjectItem, TypedItem, LegibleItem;
    ItemDecodes(w, r, n, v, rest);
  }

  lemma {:induction false} ArrayDecodes(w: Schema, r: Schema, t: Type, es: seq<Value>, rest: bytes)
    requires BothScope(w, r, t) && TypedElems(w, t, es) && |es| < TWO_64 && |Enc(w, Array(t), VArr(es))| < TWO_64
    requires LegibleElems(w, r, t, es)
    ensures Dec(r, Array(t), Enc(w, Array(t), VArr(es)) + rest) == Ok(VArr(ProjectElems(r, t, es)), rest)
    decreases es, 8
  {
    hide Compiles, Evolves, EncElems, DecElems, ProjectElems, DecodeLeb, Leb, LegibleElems;
    var data := EncElems(w, t, es);
    LebRoundTrip(|es|, data + rest);
    assert Leb(|es|) + data + rest == Leb(|es|) + (data + rest);
    ElemsDecode(w, r, t, es, rest);
  }

  lemma {:induction false} MapDecodes(w: Schema, r: Schema, k: Type, t: Type, es: seq<Entry>, rest: bytes)
    requires BothScope(w, r, k) && BothScope(w, r, t) && TypedEntries(w, k, t, es) && DistinctKeys(es)
    requires |es| < TWO_64 && |Enc(w, Map(k, t), VMap(es))| < TWO_64 && LegibleEntries(w, r, k, t, es)
    ensures Dec(r, Map(k, t), Enc(w, Map(k, t), VMap(es)) + rest) ==
      Ok(VMap(Collect(ProjectEntries(r, k, t, es), [])), rest)
    decreases es, 8
  {
    hide Compiles, Evolves, EncEntries, DecEntries, ProjectEntries, Collect, DecodeLeb, Leb, LegibleEntries;
    var data := EncEntries(w, k, t, es);
    LebRoundTrip(|es|, data + rest);
    assert Leb(|es|) + data + rest == Leb(|es|) + (data + rest);
    EntriesDecode(w, r, k, t, es, [], rest);
  }

  /**
   * Field by field: what the writer sent arrives, projected; a required field it did not send is
   * zero in all its parts, an optional one absent; what the reader does not declare is gone.
   */
  lemma MessageSeen(w: Schema, r: Schema, n: string, v: Value, rest: bytes, i: nat)
    requires BothScope(w, r, Named(n)) && Lookup(w, n).value.MessageItem? && Typed(w, Named(n), v)
    requires |Enc(w, Named(n), v)| < TWO_64
    requires Legible(w, r, Named(n), v)
    ensures var p := Dec(r, Named(n), Enc(w, Named(n), v) + rest);
      Lookup(r, n).value.MessageItem? && p.Ok? && p.rest == rest && p.value.VMsg? && v.VMsg? &&
      match FieldAt(Lookup(r, n).value.mfields, i)
      case None => i !in p.value.fields
      case Some(f) =>
        Scoped(r, f.ty) &&
        if i in v.fields then i in p.value.fields && p.value.fields[i] == Project(r, f.ty, v.fields[i])
        else if f.optional then i !in p.value.fields
        else i in p.value.fields && Defaults.Zero(r, f.ty, p.value.fields[i])
  {
    assert ScopedItem(r, Lookup(r, n).value);
    SharedItem(w, r, n);
    ValueDecodes(w, r, Named(n), v, rest);
    hide Compiles, Evolves, Enc, Dec, Typed, Default, CompatibleItem, Defaults.Zero;
    var rf := Lookup(r, n).value.mfields;
    if FieldAt(rf, i).Some? {
      Defaults.DefaultIsZero(r, FieldAt(rf, i).value.ty);
    }
    assert i in Indices(rf) <==> FieldAt(rf, i).Some?;
    assert ProjectItem(r, n, v) == VMsg(ProjectFields(r, n, v));
  }
}
