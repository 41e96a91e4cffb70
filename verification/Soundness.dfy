/** Whatever bytes arrive, a decoder that succeeds has built a value of its type. */
module Soundness {
  import opened Wire
  import opened Bits
  import opened Schema
  import opened Values
  import opened Leb128
  import opened Presence
  import opened Encoder
  import opened Decoder

  // ---------------------------------------------------------------- defaults

  lemma {:induction false} DefaultTyped(s: Schema, ty: Type)
    requires Compiles(s) && Scoped(s, ty)
    ensures Typed(s, ty, Default(s, ty))
    decreases Rank(s, ty), 2
  {
    if ty.Named? {
      NamedDefaultTyped(s, ty.name);
    }
  }

  lemma {:induction false} NamedDefaultTyped(s: Schema, n: string)
    requires Compiles(s) && Scoped(s, Named(n))
    ensures TypedItem(s, Lookup(s, n).value, Default(s, Named(n)))
    decreases Rank(s, Named(n)), 1
  {
    var it := Lookup(s, n).value;
    assert ScopedItem(s, it) && Inhabited(it);
    match it
    case StructItem(_, fs) => StructDefaultTyped(s, n);
    case MessageItem(_, fs) => MessageDefaultTyped(s, n);
    case EnumItem(_, vs) => assert vs[0] in vs;
    case UnionItem(_, vs) => UnionDefaultTyped(s, n);
  }

  lemma {:induction false} StructDefaultTyped(s: Schema, n: string)
    requires Compiles(s) && Scoped(s, Named(n)) && Lookup(s, n).value.StructItem?
    ensures TypedItem(s, Lookup(s, n).value, Default(s, Named(n)))
    decreases Rank(s, Named(n)), 0
  {
    var fs, v := Lookup(s, n).value.sfields, Default(s, Named(n));
    assert ScopedItem(s, Lookup(s, n).value);
    forall i | 0 <= i < |fs| ensures TypedSlot(s, fs[i].ty, fs[i].optional, v.slots[i]) {
      if !fs[i].optional {
        assert fs[i] in fs;
        RankDescends(s, n, fs[i].ty);
        DefaultTyped(s, fs[i].ty);
      }
    }
    assert TypedSlots(s, fs, v.slots);
  }

  /** A message under construction: declared indices only, each of its type. */
  ghost predicate Filled(s: Schema, fs: seq<MessageField>, m: map<nat, Value>)
  {
    forall i <- m :: FieldAt(fs, i).Some? && Typed(s, FieldAt(fs, i).value.ty, m[i])
  }

  ghost predicate Complete(fs: seq<MessageField>, m: map<nat, Value>)
  {
    forall f <- fs :: !f.optional ==> f.index in m
  }

  lemma FilledTyped(s: Schema, fs: seq<MessageField>, m: map<nat, Value>)
    requires Filled(s, fs, m) && Complete(fs, m)
    ensures TypedFields(s, fs, VMsg(m))
  {
    hide Typed, FieldAt;
  }

  lemma {:induction false} MessageDefaultTyped(s: Schema, n: string)
    requires Compiles(s) && Scoped(s, Named(n)) && Lookup(s, n).value.MessageItem?
    ensures Filled(s, Lookup(s, n).value.mfields, DefaultFields(s, n)) &&
      Complete(Lookup(s, n).value.mfields, DefaultFields(s, n))
    ensures TypedItem(s, Lookup(s, n).value, Default(s, Named(n)))
    decreases Rank(s, Named(n)), 0
  {
    var fs, m := Lookup(s, n).value.mfields, DefaultFields(s, n);
    assert ScopedItem(s, Lookup(s, n).value) && Numbered(Lookup(s, n).value);
    forall i | i in m ensures FieldAt(fs, i).Some? && Typed(s, FieldAt(fs, i).value.ty, m[i]) {
      var f := FieldAt(fs, i).value;
      RankDescends(s, n, f.ty);
      DefaultTyped(s, f.ty);
    }
    forall f <- fs ensures !f.optional ==> f.index in m {
      FieldAtUnique(fs, f);
    }
    FilledTyped(s, fs, m);
  }

  lemma {:induction false} UnionDefaultTyped(s: Schema, n: string)
    requires Compiles(s) && Scoped(s, Named(n)) && Lookup(s, n).value.UnionItem?
    ensures TypedItem(s, Lookup(s, n).value, Default(s, Named(n)))
    decreases Rank(s, Named(n)), 0
  {
    var it := Lookup(s, n).value;
    assert ScopedItem(s, it) && Inhabited(it);
    var first, v := it.uvariants[0], Default(s, Named(n));
    assert first in it.uvariants && VariantAt(it.uvariants, first.index) == Some(first);
    if first.ty.Some? {
      RankDescends(s, n, first.ty.value);
      DefaultTyped(s, first.ty.value);
    }
    assert TypedPayload(s, first.ty, v.payload);
  }

  // ---------------------------------------------------------------- decoded values

  /**
   * Soundness of the decoder on arbitrary input: integers in range, valid UTF-8, distinct map keys,
   * declared variants and indices only, every required field present.
   */
  lemma {:induction false} DecodedIsTyped(s: Schema, ty: Type, buf: bytes)
    requires Compiles(s) && Scoped(s, ty) && Dec(s, ty, buf).Ok?
    ensures Typed(s, ty, Dec(s, ty, buf).value)
    decreases |buf|, Rank(s, ty), 4, 0
  {
    match ty
    case Named(n) => NamedTyped(s, n, buf);
    case Array(t) => ArrayTyped(s, t, buf);
    case Map(k, t) => MapTyped(s, k, t, buf);
    case I16 => SignedTyped(s, ty, buf);
    case I32 => SignedTyped(s, ty, buf);
    case I64 => SignedTyped(s, ty, buf);
    case U16 => UnsignedTyped(s, ty, buf);
    case U32 => UnsignedTyped(s, ty, buf);
    case U64 => UnsignedTyped(s, ty, buf);
    case Str => StringTyped(s, buf);
    case _ => FixedTyped(s, ty, buf);
  }

  lemma {:induction false} NamedTyped(s: Schema, n: string, buf: bytes)
    requires Compiles(s) && Scoped(s, Named(n)) && Dec(s, Named(n), buf).Ok?
    ensures Typed(s, Named(n), Dec(s, Named(n), buf).value)
    decreases |buf|, Rank(s, Named(n)), 3, 1
  {
    hide DecItem, Compiles, TypedItem;
    ItemTyped(s, n, buf);
  }

  lemma {:induction false} ArrayTyped(s: Schema, t: Type, buf: bytes)
    requires Compiles(s) && Scoped(s, t) && Dec(s, Array(t), buf).Ok?
    ensures Typed(s, Array(t), Dec(s, Array(t), buf).value)
    decreases |buf|, Rank(s, Array(t)), 3, 0
  {
    hide DecElems, Compiles, TypedElems, DecodeLeb;
    LebMinimal(buf);
    ElemsTyped(s, t, DecodeLeb(buf).value, DecodeLeb(buf).rest);
  }

  lemma {:induction false} MapTyped(s: Schema, k: Type, t: Type, buf: bytes)
    requires Compiles(s) && Scoped(s, k) && Scoped(s, t) && Dec(s, Map(k, t), buf).Ok?
    ensures Typed(s, Map(k, t), Dec(s, Map(k, t), buf).value)
    decreases |buf|, Rank(s, Map(k, t)), 3, 0
  {
    hide DecEntries, Compiles, TypedEntries, DistinctKeys, DecodeLeb;
    LebMinimal(buf);
    NoEntries(s, k, t);
    EntriesTyped(s, k, t, DecodeLeb(buf).value, DecodeLeb(buf).rest, []);
  }

  lemma StringTyped(s: Schema, buf: bytes)
    requires Compiles(s) && Dec(s, Str, buf).Ok?
    ensures Typed(s, Str, Dec(s, Str, buf).value)
  {
    hide Compiles, DecodeLeb, ValidUtf8;
    LebMinimal(buf);
  }

  lemma UnsignedTyped(s: Schema, ty: Type, buf: bytes)
    requires Compiles(s) && (ty.U16? || ty.U32? || ty.U64?) && Dec(s, ty, buf).Ok?
    ensures Typed(s, ty, Dec(s, ty, buf).value)
  {
    hide Compiles, DecodeLeb, Rank;
    LebMinimal(buf);
  }

  lemma SignedTyped(s: Schema, ty: Type, buf: bytes)
    requires Compiles(s) && (ty.I16? || ty.I32? || ty.I64?) && Dec(s, ty, buf).Ok?
    ensures Typed(s, ty, Dec(s, ty, buf).value)
  {
    hide Compiles, DecodeLeb, Rank, SignedVarint;
    LebMinimal(buf);
    VarintRange(DecodeLeb(buf).value, if ty.I16? then 16 else if ty.I32? then 32 else 64);
    Pow2Halves();
  }

  lemma VarintRange(n: nat, width: nat)
    requires n < TWO_64 && width > 0
    ensures 0 - Pow2(width - 1) <= SignedVarint(n, width) < Pow2(width - 1)
  {
    hide Signed, ZigzagDecode, Bits64, Pow2;
    ZigzagDecodeValue(n);
    SignedRange(Bits64(ZigzagDecode(n)), width);
  }

  lemma FixedTyped(s: Schema, ty: Type, buf: bytes)
    requires Compiles(s) && (ty.Bool? || ty.U8? || ty.I8? || ty.F32? || ty.F64?) && Dec(s, ty, buf).Ok?
    ensures Typed(s, ty, Dec(s, ty, buf).value)
  {
    hide Compiles, DecodeLeb, Rank, Signed, Pow2, Truncate, SignedVarint, DecStr, DecElems, DecEntries, DecItem;
    if ty.I8? {
      SignedByteTyped(s, buf);
    }
  }

  lemma SignedByteTyped(s: Schema, buf: bytes)
    requires Compiles(s) && Dec(s, I8, buf).Ok?
    ensures Typed(s, I8, Dec(s, I8, buf).value)
  {
    hide Compiles, DecodeLeb, Rank, Signed, Pow2;
    Pow2Halves();
    SignedRange(buf[0], 8);
  }

  lemma SignedRange(bits: nat, width: nat)
    requires width > 0
    ensures 0 - Pow2(width - 1) <= Signed(bits, width) < Pow2(width - 1)
  {
    hide Low;
  }

  lemma Pow2Halves()
    ensures Pow2(7) == 0x80 && Pow2(15) == 0x8000 && Pow2(31) == 0x8000_0000 && Pow2(63) == 0x8000_0000_0000_0000
  {
    Pow2Of8();
    Pow2Of16();
    Pow2Of32();
    Pow2Of64();
  }

  lemma {:induction false} ElemsTyped(s: Schema, ty: Type, count: nat, buf: bytes)
    requires Compiles(s) && Scoped(s, ty) && DecElems(s, ty, count, buf).Ok?
    ensures var es := DecElems(s, ty, count, buf).value; |es| == count && TypedElems(s, ty, es)
    decreases |buf|, Rank(s, ty), 5, count
  {
    hide Compiles, Dec, Typed;
    if count > 0 {
      DecodedIsTyped(s, ty, buf);
      ElemsTyped(s, ty, count - 1, Dec(s, ty, buf).rest);
    }
  }

  lemma InsertKeeps(s: Schema, k: Type, t: Type, es: seq<Entry>, key: Value, val: Value)
    requires TypedEntries(s, k, t, es) && DistinctKeys(es) && Typed(s, k, key) && Typed(s, t, val)
    ensures var r := InsertEntry(es, key, val);
      TypedEntries(s, k, t, r) && DistinctKeys(r) && |r| <= |es| + 1
  {
    assert TypedEntry(s, k, t, Entry(key, val));
    hide Typed, TypedEntry, DistinctKeys, InsertEntry, TypedEntries;
    InsertTyped(s, k, t, es, key, val);
    InsertDistinct(es, key, val);
  }

  lemma {:induction false} InsertTyped(s: Schema, k: Type, t: Type, es: seq<Entry>, key: Value, val: Value)
    requires TypedEntries(s, k, t, es) && TypedEntry(s, k, t, Entry(key, val))
    ensures TypedEntries(s, k, t, InsertEntry(es, key, val))
    decreases |es|
  {
    hide TypedEntry, TypedEntries;
    var r := InsertEntry(es, key, val);
    NoEntries(s, k, t);
    if es != [] {
      EntriesTail(s, k, t, es);
      if es[0].key != key {
        InsertTyped(s, k, t, es[1..], key, val);
        assert r[1..] == InsertEntry(es[1..], key, val);
      } else {
        assert r[1..] == es[1..];
      }
    } else {
      assert r[1..] == [];
    }
    EntriesJoin(s, k, t, r);
  }

  lemma EntriesTail(s: Schema, k: Type, t: Type, es: seq<Entry>)
    requires TypedEntries(s, k, t, es) && es != []
    ensures TypedEntry(s, k, t, es[0]) && TypedEntries(s, k, t, es[1..])
  {
    hide TypedEntry;
  }

  lemma {:induction false} InsertDistinct(es: seq<Entry>, key: Value, val: Value)
    requires DistinctKeys(es)
    ensures DistinctKeys(InsertEntry(es, key, val)) && |InsertEntry(es, key, val)| <= |es| + 1
    ensures forall e <- InsertEntry(es, key, val) :: e.key == key || exists d <- es :: d.key == e.key
    decreases |es|
  {
    if es != [] && es[0].key != key {
      InsertDistinct(es[1..], key, val);
      var r := InsertEntry(es[1..], key, val);
      forall e <- r ensures e.key != es[0].key {
        if e.key != key {
          var d :| d in es[1..] && d.key == e.key;
        }
      }
      KeysJoin(es[0], r);
    }
  }

  lemma KeysJoin(first: Entry, es: seq<Entry>)
    requires DistinctKeys(es) && forall e <- es :: e.key != first.key
    ensures DistinctKeys([first] + es)
  {
    var all := [first] + es;
    forall i, j | 0 <= i < j < |all| ensures all[i].key != all[j].key {
      assert all[j] == es[j - 1];
    }
  }

  lemma {:induction false} EntriesTyped(s: Schema, k: Type, t: Type, count: nat, buf: bytes, acc: seq<Entry>)
    requires Compiles(s) && Scoped(s, k) && Scoped(s, t) && DecEntries(s, k, t, count, buf, acc).Ok?
    requires TypedEntries(s, k, t, acc) && DistinctKeys(acc)
    ensures var es := DecEntries(s, k, t, count, buf, acc).value;
      TypedEntries(s, k, t, es) && DistinctKeys(es) && |es| <= |acc| + count
    decreases |buf|, EntryRank(s, k, t), 5, count
  {
    hide Compiles, Dec, TypedEntries, DistinctKeys, InsertEntry;
    if count > 0 {
      var key := Dec(s, k, buf);
      var val := Dec(s, t, key.rest);
      DecodedIsTyped(s, k, buf);
      DecodedIsTyped(s, t, key.rest);
      InsertKeeps(s, k, t, acc, key.value, val.value);
      EntriesTyped(s, k, t, count - 1, val.rest, InsertEntry(acc, key.value, val.value));
    }
  }

  lemma {:induction false} ItemTyped(s: Schema, n: string, buf: bytes)
    requires Compiles(s) && Scoped(s, Named(n)) && DecItem(s, n, buf).Ok?
    ensures TypedItem(s, Lookup(s, n).value, DecItem(s, n, buf).value)
    decreases |buf|, Rank(s, Named(n)), 3, 0
  {
    var it := Lookup(s, n).value;
    assert ScopedItem(s, it);
    match it
    case StructItem(_, _) => StructTyped(s, n, buf);
    case MessageItem(_, _) => MessageTyped(s, n, buf);
    case EnumItem(_, _) => hide Compiles, DecodeLeb;
    case UnionItem(_, _) => UnionTyped(s, n, buf);
  }

  lemma {:induction false} StructTyped(s: Schema, n: string, buf: bytes)
    requires Compiles(s) && Scoped(s, Named(n)) && Lookup(s, n).value.StructItem? && DecItem(s, n, buf).Ok?
    ensures TypedItem(s, Lookup(s, n).value, DecItem(s, n, buf).value)
    decreases |buf|, Rank(s, Named(n)), 2, 0
  {
    var fs := Lookup(s, n).value.sfields;
    assert ScopedItem(s, Lookup(s, n).value);
    hide DecSlots, DecodePresence, TypedSlots, Compiles;
    var p := DecodePresence(CountOptional(fs), buf);
    RequiredRank(s, n, fs);
    SlotsTyped(s, fs, p.value, p.rest);
  }

  lemma {:induction false} MessageTyped(s: Schema, n: string, buf: bytes)
    requires Compiles(s) && Scoped(s, Named(n)) && Lookup(s, n).value.MessageItem? && DecItem(s, n, buf).Ok?
    ensures TypedItem(s, Lookup(s, n).value, DecItem(s, n, buf).value)
    decreases |buf|, Rank(s, Named(n)), 2, 0
  {
    var fs := Lookup(s, n).value.mfields;
    assert ScopedItem(s, Lookup(s, n).value);
    hide DecFields, TypedFields, Compiles;
    MessageDefaultTyped(s, n);
    FieldsTyped(s, fs, buf, DefaultFields(s, n));
    FilledTyped(s, fs, DecFields(s, fs, buf, DefaultFields(s, n)).value);
  }

  lemma {:induction false} UnionTyped(s: Schema, n: string, buf: bytes)
    requires Compiles(s) && Scoped(s, Named(n)) && Lookup(s, n).value.UnionItem? && DecItem(s, n, buf).Ok?
    ensures TypedItem(s, Lookup(s, n).value, DecItem(s, n, buf).value)
    decreases |buf|, Rank(s, Named(n)), 2, 0
  {
    var vs := Lookup(s, n).value.uvariants;
    assert ScopedItem(s, Lookup(s, n).value);
    hide DecField, Compiles, Typed, DecodeLeb;
    var tag := DecodeLeb(buf);
    var variant := VariantAt(vs, tag.value / 8 % TWO_32).value;
    assert variant in vs;
    if variant.ty.Some? {
      FieldTyped(s, variant.ty.value, tag.rest);
    }
  }

  lemma {:induction false} SlotsTyped(s: Schema, fields: seq<StructField>, flags: seq<bool>, buf: bytes)
    requires Compiles(s) && (forall f <- fields :: Scoped(s, f.ty)) && |flags| == CountOptional(fields)
    requires DecSlots(s, fields, flags, buf).Ok?
    ensures TypedSlots(s, fields, DecSlots(s, fields, flags, buf).value)
    decreases |buf|, FieldsRank(s, fields), 1, |fields|
  {
    hide Compiles, Dec, Typed, TypedSlots;
    if fields == [] {
      NoSlots(s);
    } else if fields[0].optional && !flags[0] {
      SlotsTyped(s, fields[1..], flags[1..], buf);
      SlotsTypedCons(s, fields, Absent, DecSlots(s, fields[1..], flags[1..], buf).value);
    } else {
      var p := Dec(s, fields[0].ty, buf);
      var later := if fields[0].optional then flags[1..] else flags;
      DecodedIsTyped(s, fields[0].ty, buf);
      SlotsTyped(s, fields[1..], later, p.rest);
      SlotsTypedCons(s, fields, Present(p.value), DecSlots(s, fields[1..], later, p.rest).value);
    }
  }

  lemma NoSlots(s: Schema)
    ensures TypedSlots(s, [], [])
  {
  }

  lemma SlotsTypedCons(s: Schema, fields: seq<StructField>, slot: Slot, slots: seq<Slot>)
    requires fields != [] && TypedSlot(s, fields[0].ty, fields[0].optional, slot) && TypedSlots(s, fields[1..], slots)
    ensures TypedSlots(s, fields, [slot] + slots)
  {
    hide TypedSlot;
    var all := [slot] + slots;
    forall i | 0 <= i < |all| ensures TypedSlot(s, fields[i].ty, fields[i].optional, all[i]) {
      if i > 0 {
        assert fields[i] == fields[1..][i - 1] && all[i] == slots[i - 1];
      }
    }
  }

  lemma {:induction false} FieldsTyped(s: Schema, fs: seq<MessageField>, buf: bytes, acc: map<nat, Value>)
    requires Compiles(s) && (forall f <- fs :: Scoped(s, f.ty)) && DecFields(s, fs, buf, acc).Ok?
    requires Filled(s, fs, acc) && Complete(fs, acc)
    ensures Filled(s, fs, DecFields(s, fs, buf, acc).value) && Complete(fs, DecFields(s, fs, buf, acc).value)
    decreases |buf|, 0, 0, 0
  {
    hide Compiles, DecodeTag, DecField, Skip, Typed;
    var tag := DecodeTag(buf);
    if tag.value.Some? {
      var index := tag.value.value.index;
      var f := FieldAt(fs, index);
      if f.Some? {
        var v := DecField(s, f.value.ty, tag.rest);
        FieldTyped(s, f.value.ty, tag.rest);
        FieldsTyped(s, fs, v.rest, acc[index := v.value]);
      } else {
        FieldsTyped(s, fs, Skip(tag.value.value.wireType, tag.rest).rest, acc);
      }
    }
  }

  lemma {:induction false} FieldTyped(s: Schema, ty: Type, buf: bytes)
    requires Compiles(s) && Scoped(s, ty) && DecField(s, ty, buf).Ok?
    ensures Typed(s, ty, DecField(s, ty, buf).value)
    decreases |buf|, Rank(s, ty), 6, 0
  {
    hide Compiles, Dec, DecDelimited, DecodeLeb, Typed;
    if WireType(s, ty) == BYTES {
      LebMinimal(buf);
      DelimitedTyped(s, ty, DecodeLeb(buf).value, DecodeLeb(buf).rest);
    } else {
      DecodedIsTyped(s, ty, buf);
    }
  }

  lemma {:induction false} DelimitedTyped(s: Schema, ty: Type, len: nat, buf: bytes)
    requires Compiles(s) && Scoped(s, ty) && len < TWO_64 && DecDelimited(s, ty, len, buf).Ok?
    ensures Typed(s, ty, DecDelimited(s, ty, len, buf).value)
    decreases |buf| + 1, 0, 0, 0
  {
    hide Compiles, Dec, DecSliceElems, DecSliceEntries;
    match ty
    case Str =>
    case Array(t) => SliceElemsTyped(s, t, buf[..len]);
    case Map(k, t) => SliceEntriesTyped(s, k, t, buf[..len]);
    case _ => DecodedIsTyped(s, ty, buf);
  }

  lemma CountBound(len: nat, size: nat)
    requires CountIn(len, size).Ok?
    ensures CountIn(len, size).value <= len
  {
    var q := CountIn(len, size).value;
    assert len == q * size;
    NoFewer(q, size);
  }

  lemma SliceCountBound(size: Option<nat>, slice: bytes)
    requires SliceCount(size, slice).Ok? && |slice| < TWO_64
    ensures SliceCount(size, slice).value < TWO_64
  {
    hide CountIn, DecodeLeb;
    if size.Some? {
      CountBound(|slice|, size.value);
    } else {
      LebMinimal(slice);
    }
  }

  lemma {:induction false} NoFewer(q: nat, size: nat)
    requires size > 0
    ensures q <= q * size
  {
    if q > 0 {
      NoFewer(q - 1, size);
      assert q * size == (q - 1) * size + size;
    }
  }

  lemma {:induction false} SliceElemsTyped(s: Schema, t: Type, slice: bytes)
    requires Compiles(s) && Scoped(s, t) && |slice| < TWO_64 && DecSliceElems(s, t, slice).Ok?
    ensures Typed(s, Array(t), DecSliceElems(s, t, slice).value)
    decreases |slice|, Rank(s, t), 6, 0
  {
    hide Compiles, DecElems, SliceCount, FixedSize, TypedElems, Scoped;
    var count := SliceCount(FixedSize(s, t), slice);
    SliceCountBound(FixedSize(s, t), slice);
    ElemsTyped(s, t, count.value, count.rest);
  }

  lemma {:induction false} SliceEntriesTyped(s: Schema, k: Type, t: Type, slice: bytes)
    requires Compiles(s) && Scoped(s, k) && Scoped(s, t) && |slice| < TWO_64 && DecSliceEntries(s, k, t, slice).Ok?
    ensures Typed(s, Map(k, t), DecSliceEntries(s, k, t, slice).value)
    decreases |slice|, EntryRank(s, k, t), 6, 0
  {
    hide Compiles, DecEntries, SliceCount, EntrySize, DistinctKeys, TypedEntries, Scoped;
    NoEntries(s, k, t);
    var count := SliceCount(EntrySize(s, k, t), slice);
    SliceCountBound(EntrySize(s, k, t), slice);
    EntriesTyped(s, k, t, count.value, count.rest, []);
  }

  lemma NoEntries(s: Schema, k: Type, t: Type)
    ensures TypedEntries(s, k, t, []) && DistinctKeys([])
  {
  }
}
