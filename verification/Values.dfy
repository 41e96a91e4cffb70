/** Values of schema types, as the generated Rust types hold them. */
module Values {
  import opened Wire
  import opened Schema
  import Leb128

  datatype Value =
    | VBool(b: bool)
    | VUInt(n: nat)
    | VInt(i: int)
    | VFloat(raw: bytes)               // the little-endian bytes of an f32 or f64
    | VStr(utf8: bytes)
    | VArr(elems: seq<Value>)
    | VMap(entries: seq<Entry>)        // in the iteration order of the HashMap
    | VStruct(slots: seq<Slot>)        // in declaration order
    | VMsg(fields: map<nat, Value>)    // by field index; an absent optional has no key
    | VEnum(index: nat)
    | VUnion(tag: nat, payload: Slot)

  datatype Slot = Absent | Present(value: Value)

  datatype Entry = Entry(key: Value, value: Value)

  // ---------------------------------------------------------------- UTF-8

  predicate Continues(s: bytes, from: nat, count: nat)
  {
    from + count <= |s| && forall i :: from <= i < from + count ==> 0x80 <= s[i] < 0xC0
  }

  /** Well-formed UTF-8 byte sequences (Unicode standard, table 3-7), which `String::from_utf8` accepts. */
  predicate ValidUtf8(s: bytes)
  {
    if s == [] then true
    else if s[0] < 0x80 then ValidUtf8(s[1..])
    else if 0xC2 <= s[0] < 0xE0 then Continues(s, 1, 1) && ValidUtf8(s[2..])
    else if 0xE0 <= s[0] < 0xF0 then
      Continues(s, 1, 2) && (s[0] == 0xE0 ==> s[1] >= 0xA0) && (s[0] == 0xED ==> s[1] < 0xA0) && ValidUtf8(s[3..])
    else if 0xF0 <= s[0] < 0xF5 then
      Continues(s, 1, 3) && (s[0] == 0xF0 ==> s[1] >= 0x90) && (s[0] == 0xF4 ==> s[1] < 0x90) && ValidUtf8(s[4..])
    else false
  }

  // ---------------------------------------------------------------- typing

  ghost predicate IsUInt(v: Value, limit: nat) { v.VUInt? && v.n < limit }

  ghost predicate IsInt(v: Value, half: int) { v.VInt? && -half <= v.i < half }

  ghost predicate DistinctKeys(es: seq<Entry>)
  {
    forall i, j :: 0 <= i < j < |es| ==> es[i].key != es[j].key
  }

  ghost predicate TypedSlot(s: Schema, ty: Type, optional: bool, slot: Slot)
    decreases slot, 1
  {
    match slot
    case Absent => optional
    case Present(v) => Typed(s, ty, v)
  }

  ghost predicate TypedSlots(s: Schema, fields: seq<StructField>, slots: seq<Slot>)
    decreases slots, 0
  {
    |slots| == |fields| &&
    forall i :: 0 <= i < |slots| ==> TypedSlot(s, fields[i].ty, fields[i].optional, slots[i])
  }

  ghost predicate TypedElems(s: Schema, ty: Type, es: seq<Value>)
    decreases es, 0
  {
    forall e <- es :: Typed(s, ty, e)
  }

  ghost predicate TypedEntries(s: Schema, k: Type, t: Type, es: seq<Entry>)
    decreases es, 0
  {
    forall e <- es :: TypedEntry(s, k, t, e)
  }

  ghost predicate TypedEntry(s: Schema, k: Type, t: Type, e: Entry)
    decreases e, 1
  {
    Typed(s, k, e.key) && Typed(s, t, e.value)
  }

  /** `v` is a value of the type Rust generates for `ty`. */
  ghost predicate Typed(s: Schema, ty: Type, v: Value)
    decreases v, 3
  {
    match ty
    case Bool => v.VBool?
    case U8 => IsUInt(v, 0x100)
    case U16 => IsUInt(v, 0x1_0000)
    case U32 => IsUInt(v, TWO_32)
    case U64 => IsUInt(v, TWO_64)
    case I8 => IsInt(v, 0x80)
    case I16 => IsInt(v, 0x8000)
    case I32 => IsInt(v, 0x8000_0000)
    case I64 => IsInt(v, 0x8000_0000_0000_0000)
    case F32 => v.VFloat? && |v.raw| == 4
    case F64 => v.VFloat? && |v.raw| == 8
    case Str => v.VStr? && |v.utf8| < TWO_64 && ValidUtf8(v.utf8)
    case Array(t) => v.VArr? && |v.elems| < TWO_64 && TypedElems(s, t, v.elems)
    case Map(k, t) => v.VMap? && |v.entries| < TWO_64 && TypedEntries(s, k, t, v.entries) && DistinctKeys(v.entries)
    case Named(n) => Lookup(s, n).Some? && TypedItem(s, Lookup(s, n).value, v)
  }

  ghost predicate TypedItem(s: Schema, it: Item, v: Value)
    decreases v, 2
  {
    match it
    case StructItem(_, fs) => v.VStruct? && TypedSlots(s, fs, v.slots)
    case MessageItem(_, fs) => v.VMsg? && TypedFields(s, fs, v)
    case EnumItem(_, vs) => v.VEnum? && HasVariant(vs, v.index)
    case UnionItem(_, vs) =>
      v.VUnion? && VariantAt(vs, v.tag).Some? && TypedPayload(s, VariantAt(vs, v.tag).value.ty, v.payload)
    case ServiceItem(_, _) => false
  }

  ghost predicate TypedPayload(s: Schema, ty: Option<Type>, payload: Slot)
    decreases payload, 1
  {
    match ty
    case None => payload.Absent?
    case Some(t) => payload.Present? && Typed(s, t, payload.value)
  }

  /** Exactly the declared fields, each of its type, and every required one. */
  ghost predicate TypedFields(s: Schema, fs: seq<MessageField>, v: Value)
    requires v.VMsg?
    decreases v, 1
  {
    (forall i <- v.fields :: FieldAt(fs, i).Some? && Typed(s, FieldAt(fs, i).value.ty, v.fields[i])) &&
    (forall f <- fs :: !f.optional ==> f.index in v.fields)
  }

  // ---------------------------------------------------------------- defaults

  /** The derived (or generated) `Default`: zeros, empty containers, first variants. */
  function Default(s: Schema, ty: Type): Value
    requires Compiles(s) && Scoped(s, ty)
    decreases Rank(s, ty), 1
  {
    match ty
    case Bool => VBool(false)
    case U8 => VUInt(0)
    case U16 => VUInt(0)
    case U32 => VUInt(0)
    case U64 => VUInt(0)
    case I8 => VInt(0)
    case I16 => VInt(0)
    case I32 => VInt(0)
    case I64 => VInt(0)
    case F32 => VFloat([0, 0, 0, 0])
    case F64 => VFloat([0, 0, 0, 0, 0, 0, 0, 0])
    case Str => VStr([])
    case Array(_) => VArr([])
    case Map(_, _) => VMap([])
    case Named(n) =>
      var it := Lookup(s, n).value;
      assert Inhabited(it);
      (match it
       case StructItem(_, fs) =>
         VStruct(seq(|fs|, i requires 0 <= i < |fs| =>
           if fs[i].optional then Absent
           else (assert fs[i] in fs; RankDescends(s, n, fs[i].ty); Present(Default(s, fs[i].ty)))))
       case MessageItem(_, fs) => VMsg(DefaultFields(s, n))
       case EnumItem(_, vs) => VEnum(vs[0].index)
       case UnionItem(_, vs) =>
         match vs[0].ty
         case None => VUnion(vs[0].index, Absent)
         case Some(t) => (assert vs[0] in vs; RankDescends(s, n, t); VUnion(vs[0].index, Present(Default(s, t)))))
  }

  function Indices(fs: seq<MessageField>): set<nat>
  {
    set f <- fs :: f.index
  }

  /** The required fields of a message at their defaults; optional ones are absent. */
  function DefaultFields(s: Schema, n: string): map<nat, Value>
    requires Compiles(s) && Lookup(s, n).Some? && Lookup(s, n).value.MessageItem?
    decreases Rank(s, Named(n)), 0
  {
    var fs := Lookup(s, n).value.mfields;
    map i | i in Indices(fs) && !FieldAt(fs, i).value.optional ::
      (assert FieldAt(fs, i).value in fs; RankDescends(s, n, FieldAt(fs, i).value.ty);
       Default(s, FieldAt(fs, i).value.ty))
  }
}
