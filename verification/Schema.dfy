/** The schema language: types, items, name lookup, fixed sizes and wire types. */
module Schema {
  import opened Wire

  datatype Type =
    | Bool
    | U8 | U16 | U32 | U64
    | I8 | I16 | I32 | I64
    | F32 | F64
    | Str
    | Array(elem: Type)
    | Map(key: Type, val: Type)
    | Named(name: string)

  datatype StructField = StructField(name: string, ty: Type, optional: bool)

  datatype MessageField = MessageField(name: string, ty: Type, index: u32, optional: bool)

  datatype EnumVariant = EnumVariant(name: string, index: u32)

  datatype UnionVariant = UnionVariant(name: string, ty: Option<Type>, index: u32)

  datatype Method = Method(name: string, request: Type, response: Response, index: u32)

  datatype Response = Unary(ty: Type) | Stream(ty: Type)

  datatype Item =
    | StructItem(name: string, sfields: seq<StructField>)
    | MessageItem(name: string, mfields: seq<MessageField>)
    | EnumItem(name: string, evariants: seq<EnumVariant>)
    | UnionItem(name: string, uvariants: seq<UnionVariant>)
    | ServiceItem(name: string, methods: seq<Method>)

  type Schema = seq<Item>

  /** The first item with the given name. */
  function Lookup(s: Schema, name: string): (r: Option<Item>)
    ensures r.Some? ==> r.value in s && r.value.name == name
    ensures r.None? ==> forall it <- s :: it.name != name
  {
    if s == [] then None
    else if s[0].name == name then Some(s[0])
    else Lookup(s[1..], name)
  }

  /** Of several items of one name it is the first that is found. */
  lemma {:induction false} FirstIsFound(s: Schema, i: nat)
    requires i < |s| && forall j :: 0 <= j < i ==> s[j].name != s[i].name
    ensures Lookup(s, s[i].name) == Some(s[i])
  {
    if i > 0 {
      assert s[0].name != s[i].name && s[1..][i - 1] == s[i];
      FirstIsFound(s[1..], i - 1);
    }
  }

  function FieldAt(fields: seq<MessageField>, index: nat): (r: Option<MessageField>)
    ensures r.Some? ==> r.value in fields && r.value.index == index
    ensures r.None? ==> forall f <- fields :: f.index != index
  {
    if fields == [] then None
    else if fields[0].index == index then Some(fields[0])
    else FieldAt(fields[1..], index)
  }

  function VariantAt(variants: seq<UnionVariant>, index: nat): (r: Option<UnionVariant>)
    ensures r.Some? ==> r.value in variants && r.value.index == index
    ensures r.None? ==> forall v <- variants :: v.index != index
  {
    if variants == [] then None
    else if variants[0].index == index then Some(variants[0])
    else VariantAt(variants[1..], index)
  }

  predicate HasVariant(variants: seq<EnumVariant>, index: nat)
  {
    exists v <- variants :: v.index == index
  }

  // ---------------------------------------------------------------- well-formedness

  /** Every name in the type resolves to an item that is not a service. */
  predicate Scoped(s: Schema, ty: Type)
  {
    match ty
    case Named(n) => Lookup(s, n).Some? && !Lookup(s, n).value.ServiceItem?
    case Array(t) => Scoped(s, t)
    case Map(k, v) => Scoped(s, k) && Scoped(s, v)
    case _ => true
  }

  predicate ScopedItem(s: Schema, it: Item)
  {
    match it
    case StructItem(_, fs) => forall f <- fs :: Scoped(s, f.ty)
    case MessageItem(_, fs) => forall f <- fs :: Scoped(s, f.ty)
    case EnumItem(_, _) => true
    case UnionItem(_, vs) => forall v <- vs :: v.ty.Some? ==> Scoped(s, v.ty.value)
    case ServiceItem(_, ms) => forall m <- ms :: Scoped(s, m.request) && Scoped(s, m.response.ty)
  }

  predicate Closed(s: Schema)
  {
    forall it <- s :: ScopedItem(s, it)
  }

  /** Building a default value of `it` starts by building one of `ty`. */
  ghost predicate NeedsDefaultOf(it: Item, ty: Type)
  {
    match it
    case StructItem(_, fs) => exists f <- fs :: f.ty == ty && !f.optional
    case MessageItem(_, fs) => exists f <- fs :: f.ty == ty && !f.optional
    case EnumItem(_, _) => false
    case UnionItem(_, vs) => vs != [] && vs[0].ty == Some(ty)
    case ServiceItem(_, _) => false
  }

  ghost function RankOf(rank: map<string, nat>, ty: Type): nat
  {
    match ty
    case Named(n) => if n in rank then rank[n] + 1 else 1
    case _ => 0
  }

  ghost predicate Layered(s: Schema, rank: map<string, nat>)
  {
    forall it <- s :: forall ty {:trigger NeedsDefaultOf(it, ty)} ::
      NeedsDefaultOf(it, ty) ==> RankOf(rank, ty) < RankOf(rank, Named(it.name))
  }

  /** A choice of variant exists wherever the generated `Default` takes the first one. */
  predicate Inhabited(it: Item)
  {
    (it.EnumItem? ==> it.evariants != []) && (it.UnionItem? ==> it.uvariants != [])
  }

  /** No index is used twice; message fields and union variants start at 1. */
  predicate Numbered(it: Item)
  {
    match it
    case StructItem(_, _) => true
    case MessageItem(_, fs) =>
      (forall f <- fs :: f.index > 0) && forall i, j :: 0 <= i < j < |fs| ==> fs[i].index != fs[j].index
    case EnumItem(_, vs) => forall i, j :: 0 <= i < j < |vs| ==> vs[i].index != vs[j].index
    case UnionItem(_, vs) =>
      (forall v <- vs :: v.index > 0) && forall i, j :: 0 <= i < j < |vs| ==> vs[i].index != vs[j].index
    case ServiceItem(_, ms) =>
      (forall m <- ms :: m.index > 0) && forall i, j :: 0 <= i < j < |ms| ==> ms[i].index != ms[j].index
  }

  /**
   * What the checker and then rustc demand of a schema: names resolve, indices are unique, enums
   * and unions have a first variant, and no item needs a default of itself to build its own.
   */
  ghost predicate Compiles(s: Schema)
  {
    Closed(s) && (forall it <- s :: Numbered(it) && Inhabited(it)) && exists rank :: Layered(s, rank)
  }

  /** With unique indices every declared field is the one its index finds. */
  lemma FieldAtUnique(fs: seq<MessageField>, f: MessageField)
    requires f in fs && forall i, j :: 0 <= i < j < |fs| ==> fs[i].index != fs[j].index
    ensures FieldAt(fs, f.index) == Some(f)
  {
    if fs[0] != f {
      FieldAtUnique(fs[1..], f);
      var k :| 0 <= k < |fs| && fs[k] == f;
      assert fs[0].index != fs[k].index;
    }
  }

  lemma VariantAtUnique(vs: seq<UnionVariant>, v: UnionVariant)
    requires v in vs && forall i, j :: 0 <= i < j < |vs| ==> vs[i].index != vs[j].index
    ensures VariantAt(vs, v.index) == Some(v)
  {
    if vs[0] != v {
      VariantAtUnique(vs[1..], v);
      var k :| 0 <= k < |vs| && vs[k] == v;
      assert vs[0].index != vs[k].index;
    }
  }

  ghost function Rank(s: Schema, ty: Type): nat
    requires Compiles(s)
  {
    var rank: map<string, nat> :| Layered(s, rank);
    RankOf(rank, ty)
  }

  lemma RankDescends(s: Schema, n: string, ty: Type)
    requires Compiles(s) && Lookup(s, n).Some? && NeedsDefaultOf(Lookup(s, n).value, ty)
    ensures Rank(s, ty) < Rank(s, Named(n))
  {
  }

  /** One above the rank of every field. */
  ghost function FieldsRank(s: Schema, fields: seq<StructField>): nat
    requires Compiles(s)
  {
    if fields == [] then 0
    else
      var a, b := Rank(s, fields[0].ty) + 1, FieldsRank(s, fields[1..]);
      if a < b then b else a
  }

  predicate HasOptional(fields: seq<StructField>)
  {
    exists f <- fields :: f.optional
  }

  lemma FieldsRankBound(s: Schema, n: string, fields: seq<StructField>)
    requires Compiles(s) && Lookup(s, n).Some? && Lookup(s, n).value.StructItem?
    requires forall f <- fields :: f in Lookup(s, n).value.sfields && !f.optional
    ensures FieldsRank(s, fields) <= Rank(s, Named(n))
  {
    if fields != [] {
      assert fields[0] in Lookup(s, n).value.sfields;
      RankDescends(s, n, fields[0].ty);
      FieldsRankBound(s, n, fields[1..]);
    }
  }

  // ---------------------------------------------------------------- fixed size and wire type

  function FixedSize(s: Schema, ty: Type): Option<nat>
    requires Compiles(s) && Scoped(s, ty)
    decreases Rank(s, ty), 1, 0
  {
    match ty
    case Bool => Some(1)
    case U8 => Some(1)
    case I8 => Some(1)
    case F32 => Some(4)
    case F64 => Some(8)
    case Named(n) =>
      var it := Lookup(s, n).value;
      if it.StructItem? && !HasOptional(it.sfields) then
        FieldsRankBound(s, n, it.sfields);
        FieldsSize(s, it.sfields)
      else None
    case _ => None
  }

  function FieldsSize(s: Schema, fields: seq<StructField>): Option<nat>
    requires Compiles(s) && (forall f <- fields :: Scoped(s, f.ty))
    decreases FieldsRank(s, fields), 0, |fields|
  {
    if fields == [] then Some(0)
    else
      var a := FixedSize(s, fields[0].ty);
      if a.None? then None
      else
        var b := FieldsSize(s, fields[1..]);
        if b.None? then None else Some(a.value + b.value)
  }

  const FIXED8 := 0
  const VARINT := 1
  const FIXED32 := 2
  const FIXED64 := 3
  const BYTES := 4
  const MESSAGE := 5
  const UNION := 6
  const UNIT := 7

  function WireType(s: Schema, ty: Type): (w: nat)
    requires Scoped(s, ty)
    ensures w < UNIT
  {
    match ty
    case Bool => FIXED8
    case U8 => FIXED8
    case I8 => FIXED8
    case F32 => FIXED32
    case F64 => FIXED64
    case Str => BYTES
    case Array(_) => BYTES
    case Map(_, _) => BYTES
    case Named(n) =>
      (match Lookup(s, n).value
       case StructItem(_, _) => BYTES
       case MessageItem(_, _) => MESSAGE
       case EnumItem(_, _) => VARINT
       case UnionItem(_, _) => UNION)
    case _ => VARINT
  }

  /** The loop of `struct_fixed_size`: give up on the first optional or variable-length field. */
  method StructFixedSize(s: Schema, fields: seq<StructField>) returns (r: Option<nat>)
    requires Compiles(s) && (forall f <- fields :: Scoped(s, f.ty))
    ensures r == if HasOptional(fields) then None else FieldsSize(s, fields)
  {
    if exists f <- fields :: f.optional {
      return None;
    }
    var total := 0;
    for i := 0 to |fields|
      invariant var tail := FieldsSize(s, fields[i..]);
        FieldsSize(s, fields) == if tail.None? then None else Some(total + tail.value)
    {
      assert fields[i..][1..] == fields[i + 1..];
      var size := FixedSize(s, fields[i].ty);
      if size.None? {
        return None;
      }
      total := total + size.value;
    }
    return Some(total);
  }
}
