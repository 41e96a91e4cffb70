/**
 * Which types have a fixed size, that they have it in every encoding, and what that means for the
 * payloads that hold them: no count in front of the elements.
 */
module FixedSizes {
  import opened Wire
  import opened Schema
  import opened Values
  import opened Leb128
  import opened Presence
  import opened Encoder

  /** `fixed_size(ty) = Some(n)` means exactly n bytes, whatever the value. */
  lemma {:induction false} FixedSizeIsExact(s: Schema, ty: Type, v: Value)
    requires Compiles(s) && Scoped(s, ty) && Typed(s, ty, v) && FixedSize(s, ty).Some?
    ensures |Enc(s, ty, v)| == FixedSize(s, ty).value
    decreases v, 3
  {
    if ty.Named? {
      hide EncSlots, FieldsSize, PresenceBits, Flags;
      var it := Lookup(s, ty.name).value;
      assert TypedItem(s, it, v) && ScopedItem(s, it);
      assert TypedSlots(s, it.sfields, v.slots);
      SlotsSize(s, it.sfields, v.slots);
      NoFlags(it.sfields, v.slots);
    }
  }

  lemma NoFlags(fields: seq<StructField>, slots: seq<Slot>)
    requires |fields| == |slots| && !HasOptional(fields)
    ensures Flags(fields, slots) == [] && PresenceBits(Flags(fields, slots)) == []
  {
  }

  lemma {:induction false} SlotsSize(s: Schema, fields: seq<StructField>, slots: seq<Slot>)
    requires Compiles(s) && (forall f <- fields :: Scoped(s, f.ty)) && TypedSlots(s, fields, slots)
    requires !HasOptional(fields) && FieldsSize(s, fields).Some?
    ensures |EncSlots(s, fields, slots)| == FieldsSize(s, fields).value
    decreases slots, 2
  {
    hide FixedSize, Enc;
    if fields != [] {
      SlotSize(s, fields[0].ty, slots[0]);
      SlotsSize(s, fields[1..], slots[1..]);
    }
  }

  lemma SlotSize(s: Schema, ty: Type, slot: Slot)
    requires Compiles(s) && Scoped(s, ty) && TypedSlot(s, ty, false, slot) && FixedSize(s, ty).Some?
    ensures |EncSlot(s, ty, false, slot)| == FixedSize(s, ty).value
    decreases slot, 4
  {
    FixedSizeIsExact(s, ty, slot.value);
  }

  lemma {:induction false} ElemsSize(s: Schema, ty: Type, es: seq<Value>, n: nat)
    requires Compiles(s) && Scoped(s, ty) && TypedElems(s, ty, es) && FixedSize(s, ty) == Some(n)
    ensures |EncElems(s, ty, es)| == |es| * n
  {
    hide FixedSize, Enc;
    if es != [] {
      FixedSizeIsExact(s, ty, es[0]);
      ElemsSize(s, ty, es[1..], n);
      OneMore(|es| - 1, n);
    }
  }

  lemma {:induction false} EntriesSize(s: Schema, k: Type, t: Type, es: seq<Entry>, n: nat)
    requires Compiles(s) && Scoped(s, k) && Scoped(s, t) && TypedEntries(s, k, t, es) && EntrySize(s, k, t) == Some(n)
    ensures |EncEntries(s, k, t, es)| == |es| * n
  {
    hide EntrySize, EncEntry;
    if es != [] {
      EntrySizeIsExact(s, k, t, es[0], n);
      EntriesSize(s, k, t, es[1..], n);
      OneMore(|es| - 1, n);
    }
  }

  lemma EntrySizeIsExact(s: Schema, k: Type, t: Type, e: Entry, n: nat)
    requires Compiles(s) && Scoped(s, k) && Scoped(s, t) && TypedEntry(s, k, t, e) && EntrySize(s, k, t) == Some(n)
    ensures |EncEntry(s, k, t, e)| == n
  {
    FixedSizeIsExact(s, k, e.key);
    FixedSizeIsExact(s, t, e.value);
  }

  lemma OneMore(c: nat, n: nat)
    ensures (c + 1) * n == c * n + n
  {
  }

  // ---------------------------------------------------------------- which types have one

  /**
   * Not of one size by itself: varints, strings, containers, enums, messages, unions, and structs
   * with an optional field.
   */
  predicate Varies(s: Schema, ty: Type)
    requires Scoped(s, ty)
  {
    match ty
    case Named(n) =>
      var it := Lookup(s, n).value;
      !it.StructItem? || exists f <- it.sfields :: f.optional
    case _ => ty !in {Bool, U8, I8, F32, F64}
  }

  /** `inner` is the type of a field of the struct `outer`. */
  predicate FieldOf(s: Schema, outer: Type, inner: Type)
  {
    outer.Named? && Lookup(s, outer.name).Some? && Lookup(s, outer.name).value.StructItem? &&
    exists f <- Lookup(s, outer.name).value.sfields :: f.ty == inner
  }

  /** Each the type of a field of the struct before it, and the last of no one size. */
  ghost predicate VariesInside(s: Schema, ty: Type, path: seq<Type>)
  {
    path != [] && path[0] == ty && (forall i :: 0 <= i < |path| - 1 ==> FieldOf(s, path[i], path[i + 1])) &&
    Scoped(s, path[|path| - 1]) && Varies(s, path[|path| - 1])
  }

  /** Something of no one size is contained by way of struct fields, at any depth. */
  ghost predicate Variable(s: Schema, ty: Type)
  {
    exists path :: VariesInside(s, ty, path)
  }

  lemma VariableHere(s: Schema, ty: Type)
    requires Scoped(s, ty) && Varies(s, ty)
    ensures Variable(s, ty)
  {
    hide Varies, Scoped;
    assert VariesInside(s, ty, [ty]);
  }

  lemma VariableBelow(s: Schema, ty: Type, inner: Type)
    requires FieldOf(s, ty, inner) && Variable(s, inner)
    ensures Variable(s, ty)
  {
    hide Varies, FieldOf, Scoped;
    var path :| VariesInside(s, inner, path);
    assert VariesInside(s, ty, [ty] + path);
  }

  lemma VariableStep(s: Schema, ty: Type)
    requires Variable(s, ty) && !(Scoped(s, ty) && Varies(s, ty))
    ensures exists inner :: FieldOf(s, ty, inner) && Variable(s, inner)
  {
    hide Varies, FieldOf, Scoped;
    var path :| VariesInside(s, ty, path);
    assert FieldOf(s, path[0], path[1]);
    assert VariesInside(s, path[1], path[1..]);
  }

  /** A size is missing exactly if something of no one size is contained by way of struct fields. */
  lemma {:induction false} NoSizeIff(s: Schema, ty: Type)
    requires Compiles(s) && Scoped(s, ty)
    ensures FixedSize(s, ty).None? <==> Variable(s, ty)
    decreases Rank(s, ty), 1, 0
  {
    if Varies(s, ty) {
      VariableHere(s, ty);
    } else if !ty.Named? {
      if Variable(s, ty) {
        VariableStep(s, ty);
      }
    } else {
      var fs := Lookup(s, ty.name).value.sfields;
      assert ScopedItem(s, Lookup(s, ty.name).value);
      FieldsRankBound(s, ty.name, fs);
      hide Compiles, Variable, FieldsSize, Rank, Varies;
      NoFieldsSizeIff(s, fs);
      if Variable(s, ty) {
        VariableStep(s, ty);
      }
      forall f <- fs | Variable(s, f.ty) ensures Variable(s, ty) {
        VariableBelow(s, ty, f.ty);
      }
    }
  }

  lemma {:induction false} NoFieldsSizeIff(s: Schema, fields: seq<StructField>)
    requires Compiles(s) && (forall f <- fields :: Scoped(s, f.ty))
    ensures FieldsSize(s, fields).None? <==> exists f <- fields :: Variable(s, f.ty)
    decreases FieldsRank(s, fields), 0, |fields|
  {
    hide Compiles, Variable, FixedSize, Rank;
    if fields != [] {
      NoSizeIff(s, fields[0].ty);
      NoFieldsSizeIff(s, fields[1..]);
    }
  }

  // ---------------------------------------------------------------- payloads without a count

  /** An array as a field: the elements alone, with their number in front exactly if their size varies. */
  lemma ArrayPayload(s: Schema, t: Type, es: seq<Value>)
    requires Compiles(s) && Scoped(s, t) && Typed(s, Array(t), VArr(es))
    ensures EncDelimited(s, Array(t), VArr(es)) ==
      (if Variable(s, t) then Leb(|es|) else []) + EncElems(s, t, es)
  {
    hide Compiles, FixedSize, Variable, EncElems;
    NoSizeIff(s, t);
  }

  /** A map as a field: its number of entries in front exactly if the size of keys or values varies. */
  lemma MapPayload(s: Schema, k: Type, t: Type, es: seq<Entry>)
    requires Compiles(s) && Scoped(s, Map(k, t)) && Typed(s, Map(k, t), VMap(es))
    ensures EncDelimited(s, Map(k, t), VMap(es)) ==
      (if Variable(s, k) || Variable(s, t) then Leb(|es|) else []) + EncEntries(s, k, t, es)
  {
    hide Compiles, FixedSize, Variable, EncEntries;
    NoSizeIff(s, k);
    NoSizeIff(s, t);
  }

  /** The bytes of one value of a type of one size. */
  function Width(ty: Type): nat
  {
    match ty
    case F32 => 4
    case F64 => 8
    case _ => 1
  }

  /** Bools, bytes and floats stand side by side: no count, and one, four or eight bytes for each. */
  lemma ScalarArrayPayload(s: Schema, t: Type, es: seq<Value>)
    requires Compiles(s) && t in {Bool, U8, I8, F32, F64} && Typed(s, Array(t), VArr(es))
    ensures EncDelimited(s, Array(t), VArr(es)) == EncElems(s, t, es) && |EncElems(s, t, es)| == |es| * Width(t)
  {
    assert FixedSize(s, t) == Some(Width(t));
    hide FixedSize, EncElems;
    ElemsSize(s, t, es, Width(t));
  }

  /** The same for maps from such types to such types. */
  lemma ScalarMapPayload(s: Schema, k: Type, t: Type, es: seq<Entry>)
    requires Compiles(s) && {k, t} <= {Bool, U8, I8, F32, F64} && Typed(s, Map(k, t), VMap(es))
    ensures EncDelimited(s, Map(k, t), VMap(es)) == EncEntries(s, k, t, es)
    ensures |EncEntries(s, k, t, es)| == |es| * (Width(k) + Width(t))
  {
    assert k in {k, t} && t in {k, t};
    assert EntrySize(s, k, t) == Some(Width(k) + Width(t));
    hide FixedSize, EncEntries, EntrySize;
    EntriesSize(s, k, t, es, Width(k) + Width(t));
  }
}
