/**
 * When the decoders panic for want of a divisor. `len % elem_size` fails for elements of no bytes;
 * every other outcome of the model's decoders is a value or an error of the runtime. A schema is
 * safe on all inputs exactly if none of its fields is a bare array or map of such elements.
 */
module Panics {
  import opened Wire
  import opened Bits
  import opened Schema
  import opened Values
  import opened Leb128
  import opened Presence
  import opened Encoder
  import opened Decoder
  import opened Compatibility
  import Skipping

  predicate DividesByZero<T>(p: Parse<T>)
  {
    p.Err? && p.error == RemainderByZero
  }

  /** Every message field and every payload of a union can be counted. */
  predicate CountableItem(s: Schema, it: Item)
    requires Compiles(s) && ScopedItem(s, it)
  {
    match it
    case MessageItem(_, fs) => forall f <- fs :: Countable(s, f.ty)
    case UnionItem(_, vs) => forall v <- vs :: v.ty.Some? ==> Countable(s, v.ty.value)
    case _ => true
  }

  /** So can those of every item that a name refers to. */
  ghost predicate AllCountable(s: Schema)
    requires Compiles(s)
  {
    forall n {:trigger Lookup(s, n)} | Lookup(s, n).Some? ::
      ScopedItem(s, Lookup(s, n).value) && CountableItem(s, Lookup(s, n).value)
  }

  // ---------------------------------------------------------------- the parts that know no schema

  lemma {:induction false} LebFromSafe(buf: bytes, shift: nat, acc: nat)
    ensures !DividesByZero(LebFrom(buf, shift, acc))
    decreases |buf|
  {
    hide Low, Shl;
    if buf != [] && shift < 64 && buf[0] >= 128 {
      LebFromSafe(buf[1..], shift + 7, acc + Low(Shl(buf[0] % 128, shift), 64));
    }
  }

  lemma LebSafe(buf: bytes)
    ensures !DividesByZero(DecodeLeb(buf)) && !DividesByZero(DecodeTag(buf))
  {
    hide LebFrom;
    LebFromSafe(buf, 0, 0);
  }

  lemma {:induction false} SkipSafe(wireType: nat, buf: bytes)
    ensures !DividesByZero(Skip(wireType, buf))
    decreases |buf|, 1
  {
    hide DecodeLeb, SkipFields;
    LebSafe(buf);
    if wireType == MESSAGE {
      SkipFieldsSafe(buf);
    } else if wireType == UNION && DecodeLeb(buf).Ok? {
      SkipSafe(DecodeLeb(buf).value % 8, DecodeLeb(buf).rest);
    }
  }

  lemma {:induction false} SkipFieldsSafe(buf: bytes)
    ensures !DividesByZero(SkipFields(buf))
    decreases |buf|, 0
  {
    hide DecodeTag, Skip;
    LebSafe(buf);
    var tag := DecodeTag(buf);
    if tag.Ok? && tag.value.Some? {
      SkipSafe(tag.value.value.wireType, tag.rest);
      var after := Skip(tag.value.value.wireType, tag.rest);
      if after.Ok? {
        SkipFieldsSafe(after.rest);
      }
    }
  }

  lemma StringSafe(len: nat, buf: bytes)
    ensures !DividesByZero(DecStr(len, buf))
  {
    hide ValidUtf8;
  }

  lemma CountSafe(size: Option<nat>, slice: bytes)
    ensures DividesByZero(SliceCount(size, slice)) <==> size == Some(0)
  {
    hide DecodeLeb;
    LebSafe(slice);
  }

  // ---------------------------------------------------------------- countable fields never panic

  lemma {:induction false} DecSafe(s: Schema, ty: Type, buf: bytes)
    requires Compiles(s) && AllCountable(s) && Scoped(s, ty)
    ensures !DividesByZero(Dec(s, ty, buf))
    decreases |buf|, Rank(s, ty), 4, 0
  {
    LebSafe(buf);
    match ty
    case Named(n) => NamedSafe(s, n, buf);
    case Array(t) => ArraySafe(s, t, buf);
    case Map(k, t) => MapSafe(s, k, t, buf);
    case Str => LeafSafe(s, ty, buf);
    case _ => LeafSafe(s, ty, buf);
  }

  lemma LeafSafe(s: Schema, ty: Type, buf: bytes)
    requires Compiles(s) && !ty.Named? && !ty.Array? && !ty.Map? && !DividesByZero(DecodeLeb(buf))
    ensures !DividesByZero(Dec(s, ty, buf))
  {
    hide Compiles, DecodeLeb, SignedVarint, Truncate, Signed, DecStr;
    if ty.Str? && DecodeLeb(buf).Ok? {
      StringSafe(DecodeLeb(buf).value, DecodeLeb(buf).rest);
    }
  }

  lemma {:induction false} NamedSafe(s: Schema, n: string, buf: bytes)
    requires Compiles(s) && AllCountable(s) && Scoped(s, Named(n))
    ensures !DividesByZero(Dec(s, Named(n), buf))
    decreases |buf|, Rank(s, Named(n)), 3, 1
  {
    hide DecItem, Compiles, AllCountable;
    ItemSafe(s, n, buf);
  }

  lemma {:induction false} ArraySafe(s: Schema, t: Type, buf: bytes)
    requires Compiles(s) && AllCountable(s) && Scoped(s, t)
    ensures !DividesByZero(Dec(s, Array(t), buf))
    decreases |buf|, Rank(s, Array(t)), 3, 0
  {
    hide DecElems, Compiles, DecodeLeb, AllCountable;
    LebSafe(buf);
    if DecodeLeb(buf).Ok? {
      ElemsSafe(s, t, DecodeLeb(buf).value, DecodeLeb(buf).rest);
    }
  }

  lemma {:induction false} MapSafe(s: Schema, k: Type, t: Type, buf: bytes)
    requires Compiles(s) && AllCountable(s) && Scoped(s, k) && Scoped(s, t)
    ensures !DividesByZero(Dec(s, Map(k, t), buf))
    decreases |buf|, Rank(s, Map(k, t)), 3, 0
  {
    hide DecEntries, Compiles, DecodeLeb, AllCountable;
    LebSafe(buf);
    if DecodeLeb(buf).Ok? {
      EntriesSafe(s, k, t, DecodeLeb(buf).value, DecodeLeb(buf).rest, []);
    }
  }

  lemma {:induction false} ElemsSafe(s: Schema, ty: Type, count: nat, buf: bytes)
    requires Compiles(s) && AllCountable(s) && Scoped(s, ty)
    ensures !DividesByZero(DecElems(s, ty, count, buf))
    decreases |buf|, Rank(s, ty), 5, count
  {
    hide Compiles, Dec, AllCountable;
    if count > 0 {
      DecSafe(s, ty, buf);
      var first := Dec(s, ty, buf);
      if first.Ok? {
        ElemsSafe(s, ty, count - 1, first.rest);
      }
    }
  }

  lemma {:induction false} EntriesSafe(s: Schema, k: Type, t: Type, count: nat, buf: bytes, acc: seq<Entry>)
    requires Compiles(s) && AllCountable(s) && Scoped(s, k) && Scoped(s, t)
    ensures !DividesByZero(DecEntries(s, k, t, count, buf, acc))
    decreases |buf|, EntryRank(s, k, t), 5, count
  {
    hide Compiles, Dec, DecEntries, AllCountable, InsertEntry, Scoped;
    if count == 0 {
      NoneSafe(s, k, t, buf, acc);
    } else {
      EntriesTurn(s, k, t, count, buf, acc);
      DecSafe(s, k, buf);
      var key := Dec(s, k, buf);
      if key.Ok? {
        DecSafe(s, t, key.rest);
        var val := Dec(s, t, key.rest);
        if val.Ok? {
          EntriesSafe(s, k, t, count - 1, val.rest, InsertEntry(acc, key.value, val.value));
        }
      }
    }
  }

  lemma NoneSafe(s: Schema, k: Type, t: Type, buf: bytes, acc: seq<Entry>)
    requires Compiles(s) && Scoped(s, k) && Scoped(s, t)
    ensures DecEntries(s, k, t, 0, buf, acc) == Ok(acc, buf)
  {
    hide Compiles, Dec, Scoped;
  }

  /** One turn of the loop: it fails as the key or the value does, or goes on. */
  lemma EntriesTurn(s: Schema, k: Type, t: Type, count: nat, buf: bytes, acc: seq<Entry>)
    requires Compiles(s) && Scoped(s, k) && Scoped(s, t) && count > 0
    ensures var key := Dec(s, k, buf);
      var val := Dec(s, t, key.rest);
      DecEntries(s, k, t, count, buf, acc) ==
        if key.Err? then key.PropagateFailure()
        else if val.Err? then val.PropagateFailure()
        else DecEntries(s, k, t, count - 1, val.rest, InsertEntry(acc, key.value, val.value))
  {
    hide Compiles, Dec, InsertEntry, Scoped;
  }

  lemma {:induction false} ItemSafe(s: Schema, n: string, buf: bytes)
    requires Compiles(s) && AllCountable(s) && Scoped(s, Named(n))
    ensures !DividesByZero(DecItem(s, n, buf))
    decreases |buf|, Rank(s, Named(n)), 3, 0
  {
    var it := Lookup(s, n).value;
    assert ScopedItem(s, it) && CountableItem(s, it);
    match it
    case StructItem(_, _) => StructSafe(s, n, buf);
    case MessageItem(_, fs) => FieldsSafe(s, fs, buf, DefaultFields(s, n));
    case EnumItem(_, vs) => EnumSafe(vs, buf);
    case UnionItem(_, _) => UnionSafe(s, n, buf);
  }

  lemma EnumSafe(vs: seq<EnumVariant>, buf: bytes)
    ensures !DividesByZero(DecEnum(vs, buf))
  {
    hide DecodeLeb;
    LebSafe(buf);
  }

  lemma {:induction false} StructSafe(s: Schema, n: string, buf: bytes)
    requires Compiles(s) && AllCountable(s) && Scoped(s, Named(n)) && Lookup(s, n).value.StructItem?
    ensures !DividesByZero(DecStruct(s, n, buf))
    decreases |buf|, Rank(s, Named(n)), 2, 0
  {
    var fs := Lookup(s, n).value.sfields;
    assert ScopedItem(s, Lookup(s, n).value);
    hide DecSlots, Compiles, AllCountable;
    RequiredRank(s, n, fs);
    var flags := DecodePresence(CountOptional(fs), buf);
    if flags.Ok? {
      SlotsSafe(s, fs, flags.value, flags.rest);
    }
  }

  lemma {:induction false} UnionSafe(s: Schema, n: string, buf: bytes)
    requires Compiles(s) && AllCountable(s) && Scoped(s, Named(n)) && Lookup(s, n).value.UnionItem?
    ensures !DividesByZero(DecUnion(s, n, buf))
    decreases |buf|, Rank(s, Named(n)), 2, 0
  {
    var vs := Lookup(s, n).value.uvariants;
    assert ScopedItem(s, Lookup(s, n).value) && CountableItem(s, Lookup(s, n).value);
    hide DecField, Compiles, AllCountable, DecodeLeb, Countable;
    LebSafe(buf);
    var tag := DecodeLeb(buf);
    if tag.Ok? {
      var variant := VariantAt(vs, tag.value / 8 % TWO_32);
      if variant.Some? && variant.value.ty.Some? {
        FieldSafe(s, variant.value.ty.value, tag.rest);
      }
    }
  }

  lemma {:induction false} SlotsSafe(s: Schema, fields: seq<StructField>, flags: seq<bool>, buf: bytes)
    requires Compiles(s) && AllCountable(s) && (forall f <- fields :: Scoped(s, f.ty)) &&
      |flags| == CountOptional(fields)
    ensures !DividesByZero(DecSlots(s, fields, flags, buf))
    decreases |buf|, FieldsRank(s, fields), 1, |fields|
  {
    hide Compiles, Dec, AllCountable;
    if fields != [] {
      if fields[0].optional && !flags[0] {
        SlotsSafe(s, fields[1..], flags[1..], buf);
      } else {
        DecSafe(s, fields[0].ty, buf);
        var first := Dec(s, fields[0].ty, buf);
        if first.Ok? {
          SlotsSafe(s, fields[1..], if fields[0].optional then flags[1..] else flags, first.rest);
        }
      }
    }
  }

  lemma {:induction false} FieldsSafe(s: Schema, fs: seq<MessageField>, buf: bytes, acc: map<nat, Value>)
    requires Compiles(s) && AllCountable(s) && (forall f <- fs :: Scoped(s, f.ty)) &&
      (forall f <- fs :: Countable(s, f.ty))
    ensures !DividesByZero(DecFields(s, fs, buf, acc))
    decreases |buf|, 0, 0, 0
  {
    hide Compiles, DecodeTag, DecField, Skip, AllCountable, Countable;
    LebSafe(buf);
    var tag := DecodeTag(buf);
    if tag.Ok? && tag.value.Some? {
      var index := tag.value.value.index;
      var f := FieldAt(fs, index);
      if f.Some? {
        FieldSafe(s, f.value.ty, tag.rest);
        var v := DecField(s, f.value.ty, tag.rest);
        if v.Ok? {
          FieldsSafe(s, fs, v.rest, acc[index := v.value]);
        }
      } else {
        SkipSafe(tag.value.value.wireType, tag.rest);
        var after := Skip(tag.value.value.wireType, tag.rest);
        if after.Ok? {
          FieldsSafe(s, fs, after.rest, acc);
        }
      }
    }
  }

  lemma {:induction false} FieldSafe(s: Schema, ty: Type, buf: bytes)
    requires Compiles(s) && AllCountable(s) && Scoped(s, ty) && Countable(s, ty)
    ensures !DividesByZero(DecField(s, ty, buf))
    decreases |buf|, Rank(s, ty), 6, 0
  {
    hide Compiles, Dec, DecDelimited, DecodeLeb, AllCountable, Countable;
    if WireType(s, ty) == BYTES {
      LebSafe(buf);
      if DecodeLeb(buf).Ok? {
        DelimitedSafe(s, ty, DecodeLeb(buf).value, DecodeLeb(buf).rest);
      }
    } else {
      DecSafe(s, ty, buf);
    }
  }

  lemma {:induction false} DelimitedSafe(s: Schema, ty: Type, len: nat, buf: bytes)
    requires Compiles(s) && AllCountable(s) && Scoped(s, ty) && Countable(s, ty)
    ensures !DividesByZero(DecDelimited(s, ty, len, buf))
    decreases |buf| + 1, 0, 0, 0
  {
    hide Compiles, Dec, DecSliceElems, DecSliceEntries, DecStr, AllCountable;
    match ty
    case Str => StringSafe(len, buf);
    case Array(t) => if len <= |buf| { SliceElemsSafe(s, t, buf[..len]); }
    case Map(k, t) => if len <= |buf| { SliceEntriesSafe(s, k, t, buf[..len]); }
    case _ => DecSafe(s, ty, buf);
  }

  lemma {:induction false} SliceElemsSafe(s: Schema, t: Type, slice: bytes)
    requires Compiles(s) && AllCountable(s) && Scoped(s, t) && FixedSize(s, t) != Some(0)
    ensures !DividesByZero(DecSliceElems(s, t, slice))
    decreases |slice|, Rank(s, t), 6, 0
  {
    hide Compiles, DecElems, SliceCount, FixedSize, Scoped, AllCountable;
    CountSafe(FixedSize(s, t), slice);
    var count := SliceCount(FixedSize(s, t), slice);
    if count.Ok? {
      ElemsSafe(s, t, count.value, count.rest);
    }
  }

  lemma {:induction false} SliceEntriesSafe(s: Schema, k: Type, t: Type, slice: bytes)
    requires Compiles(s) && AllCountable(s) && Scoped(s, k) && Scoped(s, t) && EntrySize(s, k, t) != Some(0)
    ensures !DividesByZero(DecSliceEntries(s, k, t, slice))
    decreases |slice|, EntryRank(s, k, t), 6, 0
  {
    hide Compiles, DecEntries, SliceCount, EntrySize, Scoped, AllCountable;
    CountSafe(EntrySize(s, k, t), slice);
    var count := SliceCount(EntrySize(s, k, t), slice);
    if count.Ok? {
      EntriesSafe(s, k, t, count.value, count.rest, []);
    }
  }

  // ---------------------------------------------------------------- the others do

  /** A field of elements without bytes panics whatever its content, and whatever follows. */
  lemma UncountablePanics(s: Schema, ty: Type, content: bytes, rest: bytes)
    requires Compiles(s) && Scoped(s, ty) && !Countable(s, ty) && |content| < TWO_64
    ensures DividesByZero(DecField(s, ty, Leb(|content|) + content + rest))
  {
    hide Compiles, DecodeLeb, Leb, DecElems, DecEntries, FixedSize, SliceCount;
    LebRoundTrip(|content|, content + rest);
    assert Leb(|content|) + content + rest == Leb(|content|) + (content + rest);
    assert (content + rest)[..|content|] == content;
    match ty
    case Array(t) =>
      CountSafe(FixedSize(s, t), content);
      assert DividesByZero(DecSliceElems(s, t, content));
    case Map(k, t) =>
      CountSafe(EntrySize(s, k, t), content);
      assert DividesByZero(DecSliceEntries(s, k, t, content));
  }

  /** A tag, and a length of 0. */
  function EmptyField(index: u32): bytes { Leb(Tag(index, BYTES)) + Leb(0) }

  lemma EmptyFieldRead(s: Schema, ty: Type, index: u32)
    requires Compiles(s) && Scoped(s, ty) && !Countable(s, ty) && index > 0
    ensures DecodeLeb(EmptyField(index)) == Ok(Tag(index, BYTES), Leb(0))
    ensures Tag(index, BYTES) / 8 % TWO_32 == index && Tag(index, BYTES) > 0
    ensures DividesByZero(DecField(s, ty, Leb(0)))
  {
    hide Compiles, DecodeLeb, Leb, DecField, Countable, Scoped;
    Skipping.TagParts(index, BYTES);
    LebRoundTrip(Tag(index, BYTES), Leb(0));
    var nothing: bytes := [];
    assert Leb(0) + nothing + nothing == Leb(0);
    UncountablePanics(s, ty, nothing, nothing);
  }

  lemma FieldFound(s: Schema, n: string, f: MessageField)
    requires Compiles(s) && Lookup(s, n).Some? && Lookup(s, n).value.MessageItem? && f in Lookup(s, n).value.mfields
    ensures FieldAt(Lookup(s, n).value.mfields, f.index) == Some(f) && f.index > 0
    ensures ScopedItem(s, Lookup(s, n).value) && Scoped(s, Named(n))
  {
    hide FieldAt, Layered;
    assert Numbered(Lookup(s, n).value);
    FieldAtUnique(Lookup(s, n).value.mfields, f);
  }

  lemma VariantFound(s: Schema, n: string, v: UnionVariant)
    requires Compiles(s) && Lookup(s, n).Some? && Lookup(s, n).value.UnionItem? && v in Lookup(s, n).value.uvariants
    ensures VariantAt(Lookup(s, n).value.uvariants, v.index) == Some(v) && v.index > 0
    ensures ScopedItem(s, Lookup(s, n).value) && Scoped(s, Named(n))
  {
    hide VariantAt, Layered;
    assert Numbered(Lookup(s, n).value);
    VariantAtUnique(Lookup(s, n).value.uvariants, v);
  }

  lemma InMessage(s: Schema, n: string, buf: bytes)
    requires Compiles(s) && Scoped(s, Named(n)) && Lookup(s, n).value.MessageItem? && ScopedItem(s, Lookup(s, n).value)
    requires DividesByZero(DecFields(s, Lookup(s, n).value.mfields, buf, DefaultFields(s, n)))
    ensures DividesByZero(Dec(s, Named(n), buf))
  {
    hide Compiles, DecFields, DefaultFields, DecodeLeb;
  }

  /** A message with such a field panics on it. */
  lemma MessagePanics(s: Schema, n: string, f: MessageField)
    requires Compiles(s) && Lookup(s, n).Some? && Lookup(s, n).value.MessageItem?
    requires f in Lookup(s, n).value.mfields && Scoped(s, f.ty) && !Countable(s, f.ty)
    ensures DividesByZero(Dec(s, Named(n), EmptyField(f.index)))
  {
    hide Compiles, Dec, DecFields, Countable, EmptyField, FieldAt, DividesByZero, DecodeLeb;
    var fs := Lookup(s, n).value.mfields;
    FieldFound(s, n, f);
    EmptyFieldRead(s, f.ty, f.index);
    FirstFieldPanics(s, fs, f, EmptyField(f.index), DefaultFields(s, n));
    InMessage(s, n, EmptyField(f.index));
  }

  lemma FirstFieldPanics(s: Schema, fs: seq<MessageField>, f: MessageField, buf: bytes, acc: map<nat, Value>)
    requires Compiles(s) && (forall f <- fs :: Scoped(s, f.ty)) && Scoped(s, f.ty) && FieldAt(fs, f.index) == Some(f)
    requires DecodeLeb(buf) == Ok(Tag(f.index, BYTES), Leb(0)) && Tag(f.index, BYTES) / 8 % TWO_32 == f.index
    requires Tag(f.index, BYTES) > 0 && DividesByZero(DecField(s, f.ty, Leb(0)))
    ensures DividesByZero(DecFields(s, fs, buf, acc))
  {
    hide Compiles, DecodeLeb, Leb, DecField, Skip, FieldAt, Scoped;
  }

  /** And a union with such a payload. */
  lemma UnionPanics(s: Schema, n: string, v: UnionVariant)
    requires Compiles(s) && Lookup(s, n).Some? && Lookup(s, n).value.UnionItem?
    requires v in Lookup(s, n).value.uvariants && v.ty.Some? && Scoped(s, v.ty.value) && !Countable(s, v.ty.value)
    ensures DividesByZero(Dec(s, Named(n), EmptyField(v.index)))
  {
    hide *;
    VariantFound(s, n, v);
    EmptyFieldRead(s, v.ty.value, v.index);
    PayloadPanics(s, n, v, EmptyField(v.index));
  }

  lemma PayloadPanics(s: Schema, n: string, v: UnionVariant, buf: bytes)
    requires Compiles(s) && Scoped(s, Named(n)) && Lookup(s, n).value.UnionItem?
    requires VariantAt(Lookup(s, n).value.uvariants, v.index) == Some(v) && v.ty.Some? && Scoped(s, v.ty.value)
    requires DecodeLeb(buf) == Ok(Tag(v.index, BYTES), Leb(0)) && Tag(v.index, BYTES) / 8 % TWO_32 == v.index
    requires DividesByZero(DecField(s, v.ty.value, Leb(0)))
    ensures DividesByZero(Dec(s, Named(n), buf))
  {
    hide Compiles, DecodeLeb, Leb, DecField, VariantAt;
    assert DividesByZero(DecUnion(s, n, buf));
  }

  /**
   * The exact condition: no input makes any decoder of the schema panic, if and only if all its fields
   * can be counted.
   */
  lemma PanicFreeIff(s: Schema)
    requires Compiles(s)
    ensures AllCountable(s) <==> forall ty, buf :: Scoped(s, ty) ==> !DividesByZero(Dec(s, ty, buf))
  {
    hide Compiles, Dec, Leb, Countable, Scoped;
    if AllCountable(s) {
      forall ty, buf | Scoped(s, ty) ensures !DividesByZero(Dec(s, ty, buf)) {
        hide AllCountable;
        DecSafe(s, ty, buf);
      }
    } else {
      var n := Uncountable(s);
      var buf := ItemPanics(s, n);
      assert Scoped(s, Named(n)) && DividesByZero(Dec(s, Named(n), buf));
    }
  }

  lemma Uncountable(s: Schema) returns (n: string)
    requires Compiles(s) && !AllCountable(s)
    ensures Lookup(s, n).Some? && ScopedItem(s, Lookup(s, n).value) && !CountableItem(s, Lookup(s, n).value)
  {
    hide Countable, Scoped;
    n :| Lookup(s, n).Some? && !(ScopedItem(s, Lookup(s, n).value) && CountableItem(s, Lookup(s, n).value));
    assert Lookup(s, n).value in s;
  }

  lemma ItemPanics(s: Schema, n: string) returns (buf: bytes)
    requires Compiles(s) && Lookup(s, n).Some? && ScopedItem(s, Lookup(s, n).value) &&
      !CountableItem(s, Lookup(s, n).value)
    ensures Scoped(s, Named(n)) && DividesByZero(Dec(s, Named(n), buf))
  {
    hide Compiles, Dec, Leb, Countable;
    match Lookup(s, n).value
    case MessageItem(_, fs) =>
      var f :| f in fs && !Countable(s, f.ty);
      buf := EmptyField(f.index);
      MessagePanics(s, n, f);
    case UnionItem(_, vs) =>
      var v :| v in vs && v.ty.Some? && !Countable(s, v.ty.value);
      buf := EmptyField(v.index);
      UnionPanics(s, n, v);
  }
}
