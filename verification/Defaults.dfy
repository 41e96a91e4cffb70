/** What a value starts out as where nothing was read: zeros, nothing at all, or the variant declared first. */
module Defaults {
  import opened Wire
  import opened Schema
  import opened Values
  import opened Leb128
  import opened Presence
  import opened Encoder
  import opened Decoder
  import Skipping

  /** Nothing but zero bytes. */
  predicate AllZero(data: bytes)
  {
    forall i :: 0 <= i < |data| ==> data[i] == 0
  }

  // ---------------------------------------------------------------- what a zero is

  /** A value read off its own parts: no default is consulted. */
  ghost predicate Zero(s: Schema, ty: Type, v: Value)
    decreases v, 3
  {
    match v
    case VBool(b) => ty.Bool? && !b
    case VUInt(n) => ty in {U8, U16, U32, U64} && n == 0
    case VInt(i) => ty in {I8, I16, I32, I64} && i == 0
    case VFloat(raw) => AllZero(raw) && ((ty.F32? && |raw| == 4) || (ty.F64? && |raw| == 8))
    case VStr(utf8) => ty.Str? && utf8 == []
    case VArr(elems) => ty.Array? && elems == []
    case VMap(entries) => ty.Map? && entries == []
    case _ => ty.Named? && Lookup(s, ty.name).Some? && ZeroItem(s, Lookup(s, ty.name).value, v)
  }

  /** Optional fields absent and the others zero; of an enum or a union the variant declared first. */
  ghost predicate ZeroItem(s: Schema, it: Item, v: Value)
    decreases v, 2
  {
    match it
    case StructItem(_, fs) =>
      v.VStruct? && |v.slots| == |fs| && forall i :: 0 <= i < |fs| ==> ZeroSlot(s, fs[i].ty, fs[i].optional, v.slots[i])
    case MessageItem(_, fs) => v.VMsg? && ZeroFields(s, fs, v)
    case EnumItem(_, vs) => v.VEnum? && vs != [] && v.index == vs[0].index
    case UnionItem(_, vs) =>
      v.VUnion? && vs != [] && v.tag == vs[0].index &&
      if vs[0].ty.None? then v.payload.Absent? else ZeroSlot(s, vs[0].ty.value, false, v.payload)
    case ServiceItem(_, _) => false
  }

  ghost predicate ZeroSlot(s: Schema, ty: Type, optional: bool, slot: Slot)
    decreases slot, 1
  {
    match slot
    case Absent => optional
    case Present(v) => !optional && Zero(s, ty, v)
  }

  /** The required fields and no others, each zero. */
  ghost predicate ZeroFields(s: Schema, fs: seq<MessageField>, v: Value)
    requires v.VMsg?
    decreases v, 1
  {
    (forall i :: i in v.fields <==> FieldAt(fs, i).Some? && !FieldAt(fs, i).value.optional) &&
    forall i <- v.fields :: Zero(s, FieldAt(fs, i).value.ty, v.fields[i])
  }

  // ---------------------------------------------------------------- the default is the zero

  /** Every type has one zero, and that is its default. */
  lemma {:induction false} DefaultIsZero(s: Schema, ty: Type)
    requires Compiles(s) && Scoped(s, ty)
    ensures Zero(s, ty, Default(s, ty))
    decreases Rank(s, ty), 2
  {
    if ty.Named? {
      var it := Lookup(s, ty.name).value;
      assert Inhabited(it) && ScopedItem(s, it);
      hide Compiles, Rank;
      match it
      case StructItem(_, _) => StructIsZero(s, ty.name);
      case MessageItem(_, _) => MessageIsZero(s, ty.name);
      case EnumItem(_, _) =>
      case UnionItem(_, _) => UnionIsZero(s, ty.name);
    }
  }

  lemma {:induction false} StructIsZero(s: Schema, n: string)
    requires Compiles(s) && Scoped(s, Named(n)) && Lookup(s, n).value.StructItem?
    ensures ZeroItem(s, Lookup(s, n).value, Default(s, Named(n)))
    decreases Rank(s, Named(n)), 1
  {
    var fs := Lookup(s, n).value.sfields;
    assert ScopedItem(s, Lookup(s, n).value);
    var v := Default(s, Named(n));
    forall i | 0 <= i < |fs| ensures ZeroSlot(s, fs[i].ty, fs[i].optional, v.slots[i]) {
      assert fs[i] in fs;
      if !fs[i].optional {
        RankDescends(s, n, fs[i].ty);
        hide Compiles, Rank, Zero;
        DefaultIsZero(s, fs[i].ty);
      }
    }
  }

  lemma {:induction false} UnionIsZero(s: Schema, n: string)
    requires Compiles(s) && Scoped(s, Named(n)) && Lookup(s, n).value.UnionItem?
    ensures ZeroItem(s, Lookup(s, n).value, Default(s, Named(n)))
    decreases Rank(s, Named(n)), 1
  {
    var vs := Lookup(s, n).value.uvariants;
    assert ScopedItem(s, Lookup(s, n).value) && Inhabited(Lookup(s, n).value);
    assert vs[0] in vs;
    if vs[0].ty.Some? {
      RankDescends(s, n, vs[0].ty.value);
      hide Compiles, Rank, Zero;
      DefaultIsZero(s, vs[0].ty.value);
    }
  }

  lemma {:induction false} MessageIsZero(s: Schema, n: string)
    requires Compiles(s) && Scoped(s, Named(n)) && Lookup(s, n).value.MessageItem?
    ensures ZeroFields(s, Lookup(s, n).value.mfields, VMsg(DefaultFields(s, n)))
    decreases Rank(s, Named(n)), 1
  {
    var fs := Lookup(s, n).value.mfields;
    assert ScopedItem(s, Lookup(s, n).value);
    var m := DefaultFields(s, n);
    forall i <- m ensures Zero(s, FieldAt(fs, i).value.ty, m[i]) {
      assert FieldAt(fs, i).value in fs;
      RankDescends(s, n, FieldAt(fs, i).value.ty);
      hide Compiles, Rank, Zero;
      DefaultIsZero(s, FieldAt(fs, i).value.ty);
    }
    forall i ensures i in m <==> FieldAt(fs, i).Some? && !FieldAt(fs, i).value.optional {
      assert i in Indices(fs) <==> FieldAt(fs, i).Some?;
    }
  }

  /** No type has two zeros. */
  lemma {:induction false} ZeroUnique(s: Schema, ty: Type, a: Value, b: Value)
    requires Zero(s, ty, a) && Zero(s, ty, b)
    ensures a == b
    decreases a, 3
  {
    if ty.Named? {
      hide ZeroItem;
      ZeroItemUnique(s, Lookup(s, ty.name).value, a, b);
    } else if a.VFloat? {
      assert a.raw == b.raw;
    }
  }

  lemma {:induction false} ZeroItemUnique(s: Schema, it: Item, a: Value, b: Value)
    requires ZeroItem(s, it, a) && ZeroItem(s, it, b)
    ensures a == b
    decreases a, 2
  {
    hide Zero;
    match it
    case StructItem(_, fs) =>
      forall i | 0 <= i < |fs| ensures a.slots[i] == b.slots[i] {
        ZeroSlotUnique(s, fs[i].ty, fs[i].optional, a.slots[i], b.slots[i]);
      }
      assert a.slots == b.slots;
    case MessageItem(_, fs) => ZeroFieldsUnique(s, fs, a, b);
    case UnionItem(_, vs) =>
      if vs[0].ty.Some? {
        ZeroSlotUnique(s, vs[0].ty.value, false, a.payload, b.payload);
      }
    case _ =>
  }

  lemma {:induction false} ZeroSlotUnique(s: Schema, ty: Type, optional: bool, a: Slot, b: Slot)
    requires ZeroSlot(s, ty, optional, a) && ZeroSlot(s, ty, optional, b)
    ensures a == b
    decreases a, 4
  {
    hide Zero;
    if a.Present? {
      ZeroUnique(s, ty, a.value, b.value);
    }
  }

  lemma {:induction false} ZeroFieldsUnique(s: Schema, fs: seq<MessageField>, a: Value, b: Value)
    requires a.VMsg? && b.VMsg? && ZeroFields(s, fs, a) && ZeroFields(s, fs, b)
    ensures a == b
    decreases a, 1
  {
    hide Zero;
    forall i <- a.fields ensures i in b.fields && a.fields[i] == b.fields[i] {
      ZeroUnique(s, FieldAt(fs, i).value.ty, a.fields[i], b.fields[i]);
    }
    assert a.fields.Keys == b.fields.Keys;
    assert a.fields == b.fields;
  }

  /** A value is the default of its type exactly if it is zero in all its parts. */
  lemma DefaultIffZero(s: Schema, ty: Type, v: Value)
    requires Compiles(s) && Scoped(s, ty)
    ensures v == Default(s, ty) <==> Zero(s, ty, v)
  {
    hide Compiles, Default, Zero;
    DefaultIsZero(s, ty);
    if Zero(s, ty, v) {
      ZeroUnique(s, ty, v, Default(s, ty));
    }
  }

  // ---------------------------------------------------------------- zeros on the wire

  lemma ZeroLeb(n: nat)
    ensures AllZero(Leb(n)) <==> n == 0
    ensures Leb(0) == [0] && (n > 0 ==> Leb(n)[0] != 0)
  {
  }

  /** The default of anything but an item is written in zero bytes, and nothing else is. */
  lemma ZeroBytes(s: Schema, ty: Type, v: Value)
    requires Compiles(s) && Scoped(s, ty) && Typed(s, ty, v) && !ty.Named?
    ensures AllZero(Enc(s, ty, v)) <==> v == Default(s, ty)
  {
    hide Enc, Default, Typed, Compiles;
    if ty in {Bool, U8, I8, F32, F64} {
      ZeroFixed(s, ty, v);
    } else if ty.Str? || ty.Array? || ty.Map? {
      ZeroCounted(s, ty, v);
    } else {
      ZeroInteger(s, ty, v);
    }
  }

  lemma ZeroFixed(s: Schema, ty: Type, v: Value)
    requires Compiles(s) && ty in {Bool, U8, I8, F32, F64} && Typed(s, ty, v)
    ensures AllZero(Enc(s, ty, v)) <==> v == Default(s, ty)
  {
    hide Compiles;
    var data := Enc(s, ty, v);
    if ty.F32? {
      assert AllZero(data) <==> data == [0, 0, 0, 0];
    } else if ty.F64? {
      assert AllZero(data) <==> data == [0, 0, 0, 0, 0, 0, 0, 0];
    } else {
      assert AllZero(data) <==> data == [0];
    }
  }

  lemma ZeroInteger(s: Schema, ty: Type, v: Value)
    requires Compiles(s) && ty in {U16, U32, U64, I16, I32, I64} && Typed(s, ty, v)
    ensures AllZero(Enc(s, ty, v)) <==> v == Default(s, ty)
  {
    hide Compiles, Leb, AllZero, ZigzagEncode;
    if v.VUInt? {
      ZeroLeb(v.n);
    } else {
      ZeroSigned(v.i);
    }
  }

  lemma ZeroCounted(s: Schema, ty: Type, v: Value)
    requires Compiles(s) && Scoped(s, ty) && Typed(s, ty, v) && (ty.Str? || ty.Array? || ty.Map?)
    ensures AllZero(Enc(s, ty, v)) <==> v == Default(s, ty)
  {
    hide Compiles, Leb, AllZero, EncElems, EncEntries;
    match ty
    case Str => ZeroLengthFirst(|v.utf8|, v.utf8);
    case Array(t) =>
      NoElems(s, t);
      ZeroLengthFirst(|v.elems|, EncElems(s, t, v.elems));
    case Map(k, t) =>
      EntriesNil(s, k, t);
      ZeroLengthFirst(|v.entries|, EncEntries(s, k, t, v.entries));
  }

  lemma NoElems(s: Schema, t: Type)
    requires Compiles(s) && Scoped(s, t)
    ensures TypedElems(s, t, []) && EncElems(s, t, []) == []
  {
    hide Compiles, Enc, Typed, Scoped;
  }

  lemma ZeroSigned(i: int)
    requires -0x8000_0000_0000_0000 <= i < 0x8000_0000_0000_0000
    ensures AllZero(Leb(ZigzagEncode(i))) <==> i == 0
  {
    ZigzagValue(i);
    ZeroLeb(ZigzagEncode(i));
  }

  lemma ZeroLengthFirst(n: nat, data: bytes)
    requires n == 0 ==> data == []
    ensures AllZero(Leb(n) + data) <==> n == 0
  {
    ZeroLeb(n);
    assert (Leb(n) + data)[0] == Leb(n)[0];
  }

  /**
   * A message of which nothing was written but its end, such as one from before any of its fields:
   * the required fields and no others, each of them zero.
   */
  lemma EmptyMessageRead(s: Schema, n: string, rest: bytes)
    requires Compiles(s) && Scoped(s, Named(n)) && Lookup(s, n).value.MessageItem?
    ensures var p := Dec(s, Named(n), [0] + rest);
      p.Ok? && p.rest == rest && p.value.VMsg? && ZeroFields(s, Lookup(s, n).value.mfields, p.value)
  {
    hide Dec, Default, DefaultFields, Compiles, Scoped;
    MessageIsZero(s, n);
    NothingRead(s, n, rest);
  }

  lemma NothingRead(s: Schema, n: string, rest: bytes)
    requires Compiles(s) && Scoped(s, Named(n)) && Lookup(s, n).value.MessageItem?
    ensures Dec(s, Named(n), [0] + rest) == Ok(VMsg(DefaultFields(s, n)), rest)
  {
    assert Dec(s, Named(n), [0] + rest) == DecItem(s, n, [0] + rest) by { hide DecItem, Compiles; }
    hide Dec;
    assert ScopedItem(s, Lookup(s, n).value);
    hide Compiles, DefaultFields, DecFields, ScopedItem;
    NoFieldsRead(s, Lookup(s, n).value.mfields, DefaultFields(s, n), rest);
  }

  lemma NoFieldsRead(s: Schema, fields: seq<MessageField>, acc: map<nat, Value>, rest: bytes)
    requires Compiles(s) && forall f <- fields :: Scoped(s, f.ty)
    ensures DecFields(s, fields, [0] + rest, acc) == Ok(acc, rest)
  {
    hide Compiles, DecodeTag, DecField, Scoped;
    Skipping.EndRead(rest);
  }
}
