/** What the generated Rust decoders accept: bytes into values of a schema type. */
module Decoder {
  import opened Wire
  import opened Schema
  import opened Values
  import opened Leb128
  import opened Presence
  import Encoder

  // ---------------------------------------------------------------- tags and skipping

  datatype FieldTag = FieldTag(index: u32, wireType: nat)

  /** A field tag, or nothing for the terminator. */
  function DecodeTag(buf: bytes): (r: Parse<Option<FieldTag>>)
    ensures Suffix(r.rest, buf)
    ensures r.Ok? ==> |r.rest| < |buf| && (r.value.Some? ==> r.value.value.wireType < 8)
  {
    var (tag, b) :- DecodeLeb(buf);
    if tag == 0 then Ok(None, b) else Ok(Some(FieldTag(tag / 8 % TWO_32, tag % 8)), b)
  }

  function Take(n: nat, buf: bytes): (r: Parse<bytes>)
    ensures Suffix(r.rest, buf)
  {
    if |buf| < n then Err(UnexpectedEof, buf) else Ok(buf[..n], buf[n..])
  }

  /** Moves past a field payload knowing nothing but its wire type. */
  function Skip(wireType: nat, buf: bytes): (r: Parse<()>)
    ensures Suffix(r.rest, buf)
    decreases |buf|, 1
  {
    if wireType == FIXED8 then
      var (_, b) :- Take(1, buf);
      Ok((), b)
    else if wireType == VARINT then
      var (_, b) :- DecodeLeb(buf);
      Ok((), b)
    else if wireType == FIXED32 then
      var (_, b) :- Take(4, buf);
      Ok((), b)
    else if wireType == FIXED64 then
      var (_, b) :- Take(8, buf);
      Ok((), b)
    else if wireType == BYTES then
      var (len, b) :- DecodeLeb(buf);
      var (_, c) :- Take(len, b);
      Ok((), c)
    else if wireType == MESSAGE then SkipFields(buf)
    else if wireType == UNION then
      var (tag, b) :- DecodeLeb(buf);
      Skip(tag % 8, b)
    else if wireType == UNIT then Ok((), buf)
    else Err(InvalidWireType(wireType), buf)
  }

  function SkipFields(buf: bytes): (r: Parse<()>)
    ensures Suffix(r.rest, buf)
    decreases |buf|, 0
  {
    var (tag, b) :- DecodeTag(buf);
    match tag
    case None => Ok((), b)
    case Some(t) =>
      var (_, c) :- Skip(t.wireType, b);
      SkipFields(c)
  }

  // ---------------------------------------------------------------- decoding

  /** `insert` of the HashMap: a key already present keeps its place and gets the new value. */
  function InsertEntry(es: seq<Entry>, k: Value, v: Value): (r: seq<Entry>)
  {
    if es == [] then [Entry(k, v)]
    else if es[0].key == k then [Entry(k, v)] + es[1..]
    else [es[0]] + InsertEntry(es[1..], k, v)
  }

  function DecodeU64(buf: bytes): (r: Parse<nat>)
    ensures r == DecodeLeb(buf) && (r.Ok? ==> r.value < TWO_64)
  {
    if DecodeLeb(buf).Ok? then (LebMinimal(buf); DecodeLeb(buf)) else DecodeLeb(buf)
  }

  /** `n as u8`, `as u16`, ... of a decoded u64. */
  function Truncate(n: nat, limit: nat): nat
    requires limit > 0
  {
    n % limit
  }

  /** `zigzag_decode(n) as i16`, `as i32` or `as i64`. */
  function SignedVarint(n: nat, width: nat): int
    requires n < TWO_64
  {
    ZigzagDecodeValue(n);
    Signed(Bits64(ZigzagDecode(n)), width)
  }

  ghost function EntryRank(s: Schema, k: Type, t: Type): nat
    requires Compiles(s)
  {
    if Rank(s, k) < Rank(s, t) then Rank(s, t) else Rank(s, k)
  }

  /** The standalone decoder. Terminates on every input: by bytes left, then by required containment. */
  function Dec(s: Schema, ty: Type, buf: bytes): (r: Parse<Value>)
    requires Compiles(s) && Scoped(s, ty)
    ensures Suffix(r.rest, buf)
    decreases |buf|, Rank(s, ty), 4, 0
  {
    match ty
    case Bool =>
      var (b, c) :- Take(1, buf);
      if b[0] == 0 then Ok(VBool(false), c)
      else if b[0] == 1 then Ok(VBool(true), c)
      else Err(InvalidBool(b[0]), c)
    case U8 =>
      var (b, c) :- Take(1, buf);
      Ok(VUInt(b[0]), c)
    case U16 =>
      var (n, c) :- DecodeLeb(buf);
      Ok(VUInt(Truncate(n, 0x1_0000)), c)
    case U32 =>
      var (n, c) :- DecodeLeb(buf);
      Ok(VUInt(Truncate(n, TWO_32)), c)
    case U64 =>
      var (n, c) :- DecodeLeb(buf);
      Ok(VUInt(n), c)
    case I8 =>
      var (b, c) :- Take(1, buf);
      Ok(VInt(Signed(b[0], 8)), c)
    case I16 =>
      var (n, c) :- DecodeU64(buf);
      Ok(VInt(SignedVarint(n, 16)), c)
    case I32 =>
      var (n, c) :- DecodeU64(buf);
      Ok(VInt(SignedVarint(n, 32)), c)
    case I64 =>
      var (n, c) :- DecodeU64(buf);
      Ok(VInt(SignedVarint(n, 64)), c)
    case F32 =>
      var (b, c) :- Take(4, buf);
      Ok(VFloat(b), c)
    case F64 =>
      var (b, c) :- Take(8, buf);
      Ok(VFloat(b), c)
    case Str =>
      var (len, b) :- DecodeLeb(buf);
      DecStr(len, b)
    case Array(t) =>
      var (count, b) :- DecodeLeb(buf);
      var (es, c) :- DecElems(s, t, count, b);
      Ok(VArr(es), c)
    case Map(k, t) =>
      var (count, b) :- DecodeLeb(buf);
      var (es, c) :- DecEntries(s, k, t, count, b, []);
      Ok(VMap(es), c)
    case Named(n) => DecItem(s, n, buf)
  }

  function DecStr(len: nat, buf: bytes): (r: Parse<Value>)
    ensures Suffix(r.rest, buf)
  {
    var (b, c) :- Take(len, buf);
    if ValidUtf8(b) then Ok(VStr(b), c) else Err(InvalidUtf8, c)
  }

  function DecElems(s: Schema, ty: Type, count: nat, buf: bytes): (r: Parse<seq<Value>>)
    requires Compiles(s) && Scoped(s, ty)
    ensures Suffix(r.rest, buf)
    decreases |buf|, Rank(s, ty), 5, count
  {
    if count == 0 then Ok([], buf)
    else
      var (e, b) :- Dec(s, ty, buf);
      var (es, c) :- DecElems(s, ty, count - 1, b);
      Ok([e] + es, c)
  }

  function DecEntries(s: Schema, k: Type, t: Type, count: nat, buf: bytes, acc: seq<Entry>): (r: Parse<seq<Entry>>)
    requires Compiles(s) && Scoped(s, k) && Scoped(s, t)
    ensures Suffix(r.rest, buf)
    decreases |buf|, EntryRank(s, k, t), 5, count
  {
    if count == 0 then Ok(acc, buf)
    else
      var (key, b) :- Dec(s, k, buf);
      var (val, c) :- Dec(s, t, b);
      DecEntries(s, k, t, count - 1, c, InsertEntry(acc, key, val))
  }

  function DecItem(s: Schema, n: string, buf: bytes): (r: Parse<Value>)
    requires Compiles(s) && Scoped(s, Named(n))
    ensures Suffix(r.rest, buf)
    decreases |buf|, Rank(s, Named(n)), 3, 0
  {
    var it := Lookup(s, n).value;
    assert ScopedItem(s, it);
    hide Compiles, Rank;
    match it
    case StructItem(_, fs) => DecStruct(s, n, buf)
    case MessageItem(_, fs) =>
      var (fields, b) :- DecFields(s, fs, buf, DefaultFields(s, n));
      Ok(VMsg(fields), b)
    case EnumItem(_, vs) => DecEnum(vs, buf)
    case UnionItem(_, vs) => DecUnion(s, n, buf)
  }

  function DecStruct(s: Schema, n: string, buf: bytes): (r: Parse<Value>)
    requires Compiles(s) && Scoped(s, Named(n)) && Lookup(s, n).value.StructItem?
    ensures Suffix(r.rest, buf)
    decreases |buf|, Rank(s, Named(n)), 2, 0
  {
    var fs := Lookup(s, n).value.sfields;
    assert ScopedItem(s, Lookup(s, n).value);
    RequiredRank(s, n, fs);
    hide Compiles, Rank, FieldsRank, Encoder.CountOptional;
    var (flags, b) :- DecodePresence(Encoder.CountOptional(fs), buf);
    var (slots, c) :- DecSlots(s, fs, flags, b);
    Ok(VStruct(slots), c)
  }

  function DecEnum(vs: seq<EnumVariant>, buf: bytes): (r: Parse<Value>)
    ensures Suffix(r.rest, buf)
  {
    var (n, b) :- DecodeLeb(buf);
    var index := Truncate(n, TWO_32);
    if HasVariant(vs, index) then Ok(VEnum(index), b) else Err(UnknownEnumVariant(index), b)
  }

  function DecUnion(s: Schema, n: string, buf: bytes): (r: Parse<Value>)
    requires Compiles(s) && Scoped(s, Named(n)) && Lookup(s, n).value.UnionItem?
    ensures Suffix(r.rest, buf)
    decreases |buf|, Rank(s, Named(n)), 2, 0
  {
    assert ScopedItem(s, Lookup(s, n).value);
    hide Compiles, Rank;
    var (tag, b) :- DecodeLeb(buf);
    var index := tag / 8 % TWO_32;
    var variant := VariantAt(Lookup(s, n).value.uvariants, index);
    if variant.None? then Err(UnknownUnionVariant(index), b)
    else if variant.value.ty.None? then Ok(VUnion(index, Absent), b)
    else
      var (v, c) :- DecField(s, variant.value.ty.value, b);
      Ok(VUnion(index, Present(v)), c)
  }

  lemma RequiredRank(s: Schema, n: string, fields: seq<StructField>)
    requires Compiles(s) && Lookup(s, n).Some? && Lookup(s, n).value.StructItem?
    requires fields == Lookup(s, n).value.sfields
    ensures Encoder.CountOptional(fields) == 0 ==> FieldsRank(s, fields) <= Rank(s, Named(n))
  {
    CountZero(fields);
    if Encoder.CountOptional(fields) == 0 {
      FieldsRankBound(s, n, fields);
    }
  }

  lemma CountZero(fields: seq<StructField>)
    ensures Encoder.CountOptional(fields) == 0 <==> !HasOptional(fields)
  {
  }

  /** Struct fields in declaration order; `flags` holds one bit for each optional field. */
  function DecSlots(s: Schema, fields: seq<StructField>, flags: seq<bool>, buf: bytes): (r: Parse<seq<Slot>>)
    requires Compiles(s) && (forall f <- fields :: Scoped(s, f.ty)) && |flags| == Encoder.CountOptional(fields)
    ensures Suffix(r.rest, buf)
    decreases |buf|, FieldsRank(s, fields), 1, |fields|
  {
    if fields == [] then Ok([], buf)
    else if fields[0].optional && !flags[0] then
      var (slots, c) :- DecSlots(s, fields[1..], flags[1..], buf);
      Ok([Absent] + slots, c)
    else
      var (v, b) :- Dec(s, fields[0].ty, buf);
      var (slots, c) :- DecSlots(s, fields[1..], if fields[0].optional then flags[1..] else flags, b);
      Ok([Present(v)] + slots, c)
  }

  /** The message loop: known indices overwrite the field, unknown ones are skipped, a zero tag ends it. */
  function DecFields(s: Schema, fields: seq<MessageField>, buf: bytes, acc: map<nat, Value>)
    : (r: Parse<map<nat, Value>>)
    requires Compiles(s) && forall f <- fields :: Scoped(s, f.ty)
    ensures Suffix(r.rest, buf)
    decreases |buf|, 0, 0, 0
  {
    var (tag, b) :- DecodeTag(buf);
    match tag
    case None => Ok(acc, b)
    case Some(t) =>
      var f := FieldAt(fields, t.index);
      if f.Some? then
        var (v, c) :- DecField(s, f.value.ty, b);
        DecFields(s, fields, c, acc[t.index := v])
      else
        var (_, c) :- Skip(t.wireType, b);
        DecFields(s, fields, c, acc)
  }

  /** A field payload; the wire type in the tag is not consulted. */
  function DecField(s: Schema, ty: Type, buf: bytes): (r: Parse<Value>)
    requires Compiles(s) && Scoped(s, ty)
    ensures Suffix(r.rest, buf)
    decreases |buf|, Rank(s, ty), 6, 0
  {
    if WireType(s, ty) == BYTES then
      var (len, b) :- DecodeLeb(buf);
      DecDelimited(s, ty, len, b)
    else Dec(s, ty, buf)
  }

  /** A result read from the first `len` bytes only: the cursor moves past them all, or not at all. */
  function Within(p: Parse<Value>, len: nat, buf: bytes): (r: Parse<Value>)
    requires len <= |buf|
    ensures Suffix(r.rest, buf)
  {
    match p
    case Ok(v, _) => Ok(v, buf[len..])
    case Err(e, _) => Err(e, buf)
  }

  function DecDelimited(s: Schema, ty: Type, len: nat, buf: bytes): (r: Parse<Value>)
    requires Compiles(s) && Scoped(s, ty)
    ensures Suffix(r.rest, buf)
    decreases |buf| + 1, 0, 0, 0
  {
    match ty
    case Str => DecStr(len, buf)
    case Array(t) =>
      if |buf| < len then Err(UnexpectedEof, buf)
      else Within(DecSliceElems(s, t, buf[..len]), len, buf)
    case Map(k, t) =>
      if |buf| < len then Err(UnexpectedEof, buf)
      else Within(DecSliceEntries(s, k, t, buf[..len]), len, buf)
    case _ => Dec(s, ty, buf)
  }

  /** How many elements a slice of fixed-size elements holds. */
  function CountIn(len: nat, size: nat): (r: Parse<nat>)
    ensures r.rest == []
  {
    if size == 0 then Err(RemainderByZero, [])
    else if len % size != 0 then Err(InvalidLength, [])
    else Ok(len / size, [])
  }

  /** The number of elements: from the length if their size is fixed, else written in front of them. */
  function SliceCount(size: Option<nat>, slice: bytes): (r: Parse<nat>)
    ensures Suffix(r.rest, slice)
  {
    if size.None? then DecodeLeb(slice)
    else
      var (n, _) :- CountIn(|slice|, size.value);
      Ok(n, slice)
  }

  function DecSliceElems(s: Schema, t: Type, slice: bytes): Parse<Value>
    requires Compiles(s) && Scoped(s, t)
    decreases |slice|, Rank(s, t), 6, 0
  {
    var (count, b) :- SliceCount(FixedSize(s, t), slice);
    var (es, c) :- DecElems(s, t, count, b);
    Ok(VArr(es), c)
  }

  function DecSliceEntries(s: Schema, k: Type, t: Type, slice: bytes): Parse<Value>
    requires Compiles(s) && Scoped(s, k) && Scoped(s, t)
    decreases |slice|, EntryRank(s, k, t), 6, 0
  {
    var (count, b) :- SliceCount(Encoder.EntrySize(s, k, t), slice);
    var (es, c) :- DecEntries(s, k, t, count, b, []);
    Ok(VMap(es), c)
  }
}
