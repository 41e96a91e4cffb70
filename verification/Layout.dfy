/**
 * The wire format as its specification gives it: digits, tags and the worked examples, byte for
 * byte. Nothing here depends on how an encoder or a decoder is written down.
 */
module Layout {
  import opened Wire
  import opened Bits
  import opened Schema
  import opened Values
  import opened Leb128
  import opened Presence
  import opened Encoder
  import opened FieldOrder

  // ---------------------------------------------------------------- numbers

  /** The number that base-128 digits stand for, the first byte being the lowest digit. */
  function Meaning(data: bytes): nat
  {
    if data == [] then 0 else data[0] % 128 + 128 * Meaning(data[1..])
  }

  /** All bytes but the last have their top bit set: the one form in which a number is read back. */
  predicate Terminated(data: bytes)
  {
    data != [] && data[|data| - 1] < 128 && forall i :: 0 <= i < |data| - 1 ==> data[i] >= 128
  }

  /** What is written for a number stands for it, and no shorter form does. */
  lemma {:induction false} LebMeans(n: nat)
    ensures Terminated(Leb(n)) && Meaning(Leb(n)) == n && (|Leb(n)| > 1 ==> Leb(n)[|Leb(n)| - 1] != 0)
  {
    if n >= 128 {
      LebMeans(n / 128);
      assert Leb(n)[1..] == Leb(n / 128);
    } else {
      assert [n][1..] == [];
    }
  }

  /** The bytes in front that say another one follows. */
  function Continuing(data: bytes): (k: nat)
    ensures k <= |data| && (k < |data| ==> data[k] < 128)
  {
    if data == [] || data[0] < 128 then 0 else 1 + Continuing(data[1..])
  }

  /**
   * Every input to the u64 decoder: what up to ten digits stand for, less what is above 64 bits; the
   * end of input; or an overflow once an eleventh byte is there.
   */
  lemma LebReads(buf: bytes)
    ensures DecodeLeb(buf) ==
      var k := Continuing(buf);
      if k < |buf| && k < 10 then Ok(Meaning(buf[..k + 1]) % 0x1_0000_0000_0000_0000, buf[k + 1..])
      else if |buf| <= 10 then Err(UnexpectedEof, [])
      else Err(Leb128Overflow, buf[11..])
  {
    hide LebFrom, Meaning, Low, Shl, Pow2;
    assert Pow2(0) == 1 && Shl(Meaning(buf[..if Continuing(buf) < |buf| then Continuing(buf) + 1 else 0]), 0) ==
      Meaning(buf[..if Continuing(buf) < |buf| then Continuing(buf) + 1 else 0]) by { ShiftedByNone(buf); }
    LebFromReads(buf, 0, 0);
    if Continuing(buf) < |buf| {
      LowIsRemainder(Meaning(buf[..Continuing(buf) + 1]));
    }
  }

  lemma ShiftedByNone(buf: bytes)
    ensures Pow2(0) == 1 && forall n :: Shl(n, 0) == n
  {
  }

  /** What there is to read from digit number `shift / 7` on, `acc` being the value of the digits before it. */
  function DigitsRead(buf: bytes, shift: nat, acc: nat): Parse<nat>
    requires shift <= 70
  {
    var k, left := Continuing(buf), 10 - shift / 7;
    if k < |buf| && k < left then Ok(Low(acc + Shl(Meaning(buf[..k + 1]), shift), 64), buf[k + 1..])
    else if |buf| <= left then Err(UnexpectedEof, [])
    else Err(Leb128Overflow, buf[left + 1..])
  }

  lemma {:induction false} LebFromReads(buf: bytes, shift: nat, acc: nat)
    requires shift <= 70 && shift % 7 == 0 && (shift < 70 ==> acc < Pow2(shift))
    ensures LebFrom(buf, shift, acc) == DigitsRead(buf, shift, acc)
    decreases |buf|
  {
    hide Low, Shl, Pow2, LebFrom, DigitsRead;
    if buf == [] || shift >= 64 {
      LebFromEnds(buf, shift, acc);
      DigitsEnd(buf, shift, acc);
    } else {
      var d, more := buf[0] % 128, buf[1..];
      assert buf == [buf[0]] + more;
      LebFromCons(buf[0], more, shift, acc);
      ShiftedPart(acc, d, shift);
      if buf[0] < 128 {
        DigitsStop(buf, shift, acc);
      } else {
        LebFromReads(more, shift + 7, acc + Low(Shl(d, shift), 64));
        DigitsTurn(buf, shift, acc);
      }
    }
  }

  lemma DigitsEnd(buf: bytes, shift: nat, acc: nat)
    requires shift <= 70 && shift % 7 == 0 && (buf == [] || shift >= 64)
    ensures DigitsRead(buf, shift, acc) ==
      if buf == [] then Err(UnexpectedEof, []) else Err(Leb128Overflow, buf[1..])
  {
    hide Low, Shl, Meaning;
  }

  lemma DigitsStop(buf: bytes, shift: nat, acc: nat)
    requires shift < 64 && shift % 7 == 0 && acc < Pow2(shift) && buf != [] && buf[0] < 128
    ensures DigitsRead(buf, shift, acc) == Ok(acc + Low(Shl(buf[0] % 128, shift), 64), buf[1..])
  {
    hide Low, Shl, Pow2, Meaning;
    OneDigit(buf[..1]);
    DigitDropped(acc, buf[0] % 128, shift, 0);
  }

  lemma DigitsTurn(buf: bytes, shift: nat, acc: nat)
    requires shift < 64 && shift % 7 == 0 && acc < Pow2(shift) && buf != [] && buf[0] >= 128
    ensures DigitsRead(buf, shift, acc) ==
      DigitsRead(buf[1..], shift + 7, acc + Low(Shl(buf[0] % 128, shift), 64))
  {
    hide Low, Shl, Pow2, Meaning;
    var k, more := Continuing(buf), buf[1..];
    if k < |buf| {
      assert buf[..k + 1][1..] == more[..k] && buf[..k + 1][0] == buf[0];
      FirstDigit(buf[..k + 1]);
      DigitDropped(acc, buf[0] % 128, shift, Meaning(more[..k]));
    }
  }

  lemma LebFromEnds(buf: bytes, shift: nat, acc: nat)
    requires buf == [] || shift >= 64
    ensures LebFrom(buf, shift, acc) == if buf == [] then Err(UnexpectedEof, []) else Err(Leb128Overflow, buf[1..])
  {
  }

  lemma OneDigit(data: bytes)
    requires |data| == 1
    ensures Meaning(data) == data[0] % 128
  {
    assert data[1..] == [];
  }

  lemma FirstDigit(data: bytes)
    requires data != []
    ensures Meaning(data) == data[0] % 128 + 128 * Meaning(data[1..])
  {
  }

  /** What a digit loses above bit 63 makes no difference to the low 64 bits of the sum. */
  lemma DigitDropped(acc: nat, d: nat, shift: nat, rest: nat)
    requires acc < Pow2(shift) && d < 128 && shift < 64
    ensures Low(acc + Shl(d + 128 * rest, shift), 64) == Low(acc + Low(Shl(d, shift), 64) + Shl(rest, shift + 7), 64)
    ensures Low(acc + Shl(d, shift), 64) == acc + Low(Shl(d, shift), 64)
  {
    hide Low, Shl, Pow2;
    var part, q := Low(Shl(d, shift), 64), Shr(Shl(d, shift), 64);
    LowAndHigh(Shl(d, shift), 64);
    ShlAdd(d, 128 * rest, shift);
    ShlSeven(rest, shift);
    LowDrops(acc + part + Shl(rest, shift + 7), q, 64);
    LowDrops(acc + part, q, 64);
    ShiftedPart(acc, d, shift);
    Pow2Of64();
    LowFits(acc + part, 64);
  }

  lemma LowIsRemainder(a: nat)
    ensures Low(a, 64) == a % 0x1_0000_0000_0000_0000
  {
    hide Low, Shl, Pow2, Shr;
    LowAndHigh(a, 64);
    ShlIsProduct(Shr(a, 64), 64);
    Pow2Of64();
  }

  lemma LebExamples()
    ensures Leb(0) == [0x00] && Leb(1) == [0x01] && Leb(127) == [0x7F] && Leb(128) == [0x80, 0x01]
    ensures Leb(300) == [0xAC, 0x02] && Leb(16384) == [0x80, 0x80, 0x01]
  {
    assert Leb(2) == [0x02] && Leb(128) == [0x80, 0x01];
  }

  lemma ZigzagExamples()
    ensures Leb(ZigzagEncode(0)) == [0x00] && Leb(ZigzagEncode(-1)) == [0x01] && Leb(ZigzagEncode(1)) == [0x02]
    ensures Leb(ZigzagEncode(-2)) == [0x03] && Leb(ZigzagEncode(64)) == [0x80, 0x01]
    ensures Leb(ZigzagEncode(-64)) == [0x7F] && Leb(ZigzagEncode(-65)) == [0x81, 0x01]
  {
    hide ZigzagEncode;
    ZigzagValue(0);
    ZigzagValue(-1);
    ZigzagValue(1);
    ZigzagValue(-2);
    ZigzagValue(64);
    ZigzagValue(-64);
    ZigzagValue(-65);
    assert Leb(129) == [0x81, 0x01] && Leb(128) == [0x80, 0x01];
  }

  // ---------------------------------------------------------------- values on their own

  /** Bools, bytes and floats, bit for bit; a negative i8 as its two's complement. */
  lemma FixedBytes(s: Schema, ty: Type, v: Value)
    requires Compiles(s) && ty in {Bool, U8, I8, F32, F64} && Typed(s, ty, v)
    ensures ty.Bool? ==> Enc(s, ty, v) == if v.b then [0x01] else [0x00]
    ensures ty.U8? ==> Enc(s, ty, v) == [v.n]
    ensures ty.I8? ==> |Enc(s, ty, v)| == 1 && Enc(s, ty, v)[0] == (v.i + 0x100) % 0x100
    ensures ty in {F32, F64} ==> Enc(s, ty, v) == v.raw
  {
  }

  /**
   * Integers of more than a byte: the base-128 digits of the number, doubled with the sign in the
   * lowest bit if signed.
   */
  lemma IntegerBytes(s: Schema, ty: Type, v: Value)
    requires Compiles(s) && ty in {U16, U32, U64, I16, I32, I64} && Typed(s, ty, v)
    ensures var data := Enc(s, ty, v);
      Terminated(data) && Meaning(data) == if v.VUInt? then v.n else if v.i >= 0 then 2 * v.i else -2 * v.i - 1
  {
    hide Leb;
    if v.VUInt? {
      LebMeans(v.n);
    } else {
      ZigzagValue(v.i);
      LebMeans(ZigzagEncode(v.i));
    }
  }

  /** The digits of the count, and then what is counted. */
  ghost predicate Counted(data: bytes, count: nat, content: bytes)
  {
    exists digits :: Terminated(digits) && Meaning(digits) == count && data == digits + content
  }

  /** Strings, arrays and maps on their own: how many bytes, elements or entries, and then those. */
  lemma CountedBytes(s: Schema, ty: Type, v: Value)
    requires Compiles(s) && Scoped(s, ty) && Typed(s, ty, v)
    ensures ty.Str? ==> Counted(Enc(s, ty, v), |v.utf8|, v.utf8)
    ensures ty.Array? ==> Counted(Enc(s, ty, v), |v.elems|, EncElems(s, ty.elem, v.elems))
    ensures ty.Map? ==> Counted(Enc(s, ty, v), |v.entries|, EncEntries(s, ty.key, ty.val, v.entries))
  {
    hide Compiles, Leb, EncElems, EncEntries;
    match ty
    case Str => LebMeans(|v.utf8|);
    case Array(_) => LebMeans(|v.elems|);
    case Map(_, _) => LebMeans(|v.entries|);
    case _ =>
  }

  /** Entries side by side, each its key and then its value; `ElemsCons` says the same of elements. */
  lemma SideBySide(s: Schema, k: Type, t: Type, es: seq<Entry>)
    requires Compiles(s) && Scoped(s, k) && Scoped(s, t) && TypedEntries(s, k, t, es) && es != []
    ensures TypedEntries(s, k, t, es[1..]) && Typed(s, k, es[0].key) && Typed(s, t, es[0].value)
    ensures EncEntries(s, k, t, es) ==
      Enc(s, k, es[0].key) + Enc(s, t, es[0].value) + EncEntries(s, k, t, es[1..])
  {
    hide Compiles, Enc, Typed, EncEntries, Scoped;
    EntriesCons(s, k, t, es);
  }

  // ---------------------------------------------------------------- tags

  /** The number of a type's wire type. */
  lemma WireTypeNumbers(s: Schema, ty: Type)
    requires Scoped(s, ty)
    ensures WireType(s, ty) ==
      match ty
      case Bool => 0
      case U8 => 0
      case I8 => 0
      case F32 => 2
      case F64 => 3
      case Str => 4
      case Array(_) => 4
      case Map(_, _) => 4
      case Named(n) =>
        var it := Lookup(s, n).value;
        if it.StructItem? then 4 else if it.MessageItem? then 5 else if it.EnumItem? then 1 else 6
      case _ => 1
  {
  }

  /**
   * A field or a variant with a payload: the index and, in the low three bits, the wire type; then the
   * value on its own, or for wire type 4 a length in bytes and that many bytes, a string's own text
   * and a struct as it is on its own.
   */
  lemma TaggedField(s: Schema, index: u32, ty: Type, v: Value)
    requires Compiles(s) && Scoped(s, ty) && Typed(s, ty, v)
    ensures exists tag ::
      EncField(s, index, ty, v) == tag + EncPayload(s, ty, v) && Terminated(tag) &&
      Meaning(tag) / 8 == index && Meaning(tag) % 8 == WireType(s, ty)
    ensures WireType(s, ty) != 4 ==> EncPayload(s, ty, v) == Enc(s, ty, v)
    ensures WireType(s, ty) == 4 ==> Counted(EncPayload(s, ty, v), |EncDelimited(s, ty, v)|, EncDelimited(s, ty, v))
    ensures ty.Str? ==> EncDelimited(s, ty, v) == v.utf8
    ensures ty.Named? ==> EncDelimited(s, ty, v) == Enc(s, ty, v)
  {
    hide Leb, Enc, Typed, WireType;
    LebMeans(Tag(index, WireType(s, ty)));
    assert EncField(s, index, ty, v) == Leb(Tag(index, WireType(s, ty))) + EncPayload(s, ty, v);
    LebMeans(|EncDelimited(s, ty, v)|);
  }

  // ---------------------------------------------------------------- items

  /** The values in `fields` by the indices in `order`, each with its tag. */
  function Segments(s: Schema, fields: seq<MessageField>, order: seq<nat>, v: Value): bytes
    requires Compiles(s) && v.VMsg? && TypedFields(s, fields, v) && Sendable(s, fields, fields)
    requires forall i <- order :: i in v.fields
  {
    if order == [] then []
    else
      var f := FieldAt(fields, order[0]).value;
      EncField(s, f.index, f.ty, v.fields[f.index]) + Segments(s, fields, order[1..], v)
  }

  predicate StrictlyAscending(order: seq<nat>)
  {
    forall i, j :: 0 <= i < j < |order| ==> order[i] < order[j]
  }

  /** The indices of the fields that hold a value, in the order of the fields. */
  function Held(order: seq<MessageField>, v: Value): (r: seq<nat>)
    requires v.VMsg?
    ensures forall i :: i in r <==> i in v.fields && exists f <- order :: f.index == i
  {
    if order == [] then [] else (if order[0].index in v.fields then [order[0].index] else []) + Held(order[1..], v)
  }

  lemma {:induction false} HeldSegments(s: Schema, fields: seq<MessageField>, order: seq<MessageField>, v: Value)
    requires Compiles(s) && v.VMsg? && TypedFields(s, fields, v) && Sendable(s, fields, fields)
    requires forall f <- order :: f in fields
    ensures EncFields(s, fields, order, v) == Segments(s, fields, Held(order, v), v)
  {
    hide Compiles, TypedFields, EncField, Scoped, Sendable;
    if order != [] {
      var first, more := order[0], order[1..];
      Sent(s, fields, order);
      HeldSegments(s, fields, more, v);
      if first.index in v.fields {
        assert Held(order, v)[1..] == Held(more, v);
      } else {
        assert [] + Held(more, v) == Held(more, v);
        assert [] + EncFields(s, fields, more, v) == EncFields(s, fields, more, v);
      }
    }
  }

  lemma Sent(s: Schema, fields: seq<MessageField>, order: seq<MessageField>)
    requires Sendable(s, fields, fields) && order != [] && forall f <- order :: f in fields
    ensures Sendable(s, fields, order) && Sendable(s, fields, order[1..]) && order[0] in fields
    ensures FieldAt(fields, order[0].index) == Some(order[0]) && Scoped(s, order[0].ty)
  {
    hide FieldAt, Scoped;
    forall f <- order ensures FieldAt(fields, f.index) == Some(f) && Scoped(s, f.ty) {
      assert f in fields;
    }
    assert order[0] in order;
  }

  lemma {:induction false} HeldAscending(order: seq<MessageField>, v: Value)
    requires v.VMsg? && Ascending(order)
    ensures StrictlyAscending(Held(order, v))
  {
    if order != [] {
      HeldAscending(order[1..], v);
      forall i <- Held(order[1..], v) ensures order[0].index < i {
        var f :| f in order[1..] && f.index == i;
        var k :| 0 <= k < |order[1..]| && order[1..][k] == f;
        assert order[k + 1] == f;
      }
      hide Held;
      AscendingCons(order[0].index, Held(order[1..], v));
      assert Held(order, v) in {Held(order[1..], v), [order[0].index] + Held(order[1..], v)} by { HeldCons(order, v); }
    }
  }

  lemma HeldCons(order: seq<MessageField>, v: Value)
    requires v.VMsg? && order != []
    ensures Held(order, v) ==
      if order[0].index in v.fields then [order[0].index] + Held(order[1..], v) else Held(order[1..], v)
  {
  }

  lemma AscendingCons(first: nat, more: seq<nat>)
    requires StrictlyAscending(more) && forall i <- more :: first < i
    ensures StrictlyAscending([first] + more)
  {
    var all := [first] + more;
    forall i, j | 0 <= i < j < |all| ensures all[i] < all[j] {
      assert all[j] == more[j - 1] && more[j - 1] in more;
    }
  }

  /** A message: exactly the fields that hold a value, by ascending index and each once, and a zero byte. */
  lemma MessageBytes(s: Schema, it: Item, v: Value)
    requires Compiles(s) && ScopedIn(s, it) && it.MessageItem? && TypedItem(s, it, v) &&
      Sendable(s, it.mfields, it.mfields)
    ensures exists order ::
      StrictlyAscending(order) && (forall i :: i in order <==> i in v.fields) &&
      EncItem(s, it, v) == Segments(s, it.mfields, order, v) + [0x00]
  {
    var fs, sorted := it.mfields, SortByIndex(it.mfields);
    SentFields(s, it);
    hide Compiles, EncField, Scoped, Segments, EncFields, SortByIndex, TypedFields, Sendable;
    HeldSegments(s, fs, sorted, v);
    HeldAscending(sorted, v);
    AllHeld(fs, sorted, v);
    assert EncItem(s, it, v) == Segments(s, fs, Held(sorted, v), v) + [0x00];
  }

  lemma AllHeld(fs: seq<MessageField>, sorted: seq<MessageField>, v: Value)
    requires v.VMsg? && (forall i <- v.fields :: FieldAt(fs, i).Some?) && forall f <- fs :: f in sorted
    ensures forall i :: i in Held(sorted, v) <==> i in v.fields
  {
    forall i <- v.fields ensures i in Held(sorted, v) {
      assert FieldAt(fs, i).value in sorted;
    }
  }

  lemma SentFields(s: Schema, it: Item)
    requires Compiles(s) && ScopedIn(s, it) && it.MessageItem?
    ensures Sendable(s, it.mfields, it.mfields) && Sendable(s, it.mfields, SortByIndex(it.mfields))
    ensures Ascending(SortByIndex(it.mfields))
  {
    assert Numbered(it);
    AllSendable(s, it);
    SortAscending(it.mfields);
  }

  /** An enum: the digits of its index. A union: its tag, which for a unit variant is all there is. */
  lemma VariantBytes(s: Schema, it: Item, v: Value)
    requires Compiles(s) && ScopedIn(s, it) && TypedItem(s, it, v) && ScopedItem(s, it)
    ensures it.EnumItem? ==> Terminated(EncItem(s, it, v)) && Meaning(EncItem(s, it, v)) == v.index
    ensures it.UnionItem? ==>
      var ty := VariantAt(it.uvariants, v.tag).value.ty;
      TypedPayload(s, ty, v.payload) &&
      if ty.None? then
        Terminated(EncItem(s, it, v)) && Meaning(EncItem(s, it, v)) == v.tag * 8 % 0x1_0000_0000 + 7
      else EncItem(s, it, v) == EncField(s, v.tag, ty.value, v.payload.value)
  {
    hide Compiles, EncField, Leb, Typed;
    if it.EnumItem? {
      LebMeans(v.index);
    } else if it.UnionItem? {
      LebMeans(UnitTag(v.tag));
    }
  }

  lemma ThreeSlots(s: Schema, fs: seq<StructField>, slots: seq<Slot>)
    requires Compiles(s) && (forall f <- fs :: Scoped(s, f.ty)) && TypedSlots(s, fs, slots) && |fs| == 3
    requires !fs[0].optional && !fs[1].optional && fs[2].optional
    ensures Flags(fs, slots) == [slots[2].Present?]
    ensures EncSlots(s, fs, slots) ==
      EncSlot(s, fs[0].ty, false, slots[0]) + (EncSlot(s, fs[1].ty, false, slots[1]) +
        EncSlot(s, fs[2].ty, true, slots[2]))
  {
    hide Compiles, EncSlot, TypedSlot, Scoped, EncSlots, Flags;
    var f, g, x, y := fs[1..], fs[1..][1..], slots[1..], slots[1..][1..];
    SlotsCons(s, fs, slots);
    SlotsCons(s, f, x);
    SlotsCons(s, g, y);
    NoSlots(s, g[1..], y[1..]);
    assert EncSlot(s, fs[2].ty, true, slots[2]) + [] == EncSlot(s, fs[2].ty, true, slots[2]);
  }

  lemma SlotsCons(s: Schema, fs: seq<StructField>, slots: seq<Slot>)
    requires Compiles(s) && (forall f <- fs :: Scoped(s, f.ty)) && TypedSlots(s, fs, slots) && fs != []
    ensures TypedSlots(s, fs[1..], slots[1..]) && TypedSlot(s, fs[0].ty, fs[0].optional, slots[0])
    ensures Flags(fs, slots) == (if fs[0].optional then [slots[0].Present?] else []) + Flags(fs[1..], slots[1..])
    ensures EncSlots(s, fs, slots) ==
      EncSlot(s, fs[0].ty, fs[0].optional, slots[0]) + EncSlots(s, fs[1..], slots[1..])
  {
    hide Compiles, EncSlot, TypedSlot, Scoped;
  }

  lemma NoSlots(s: Schema, fs: seq<StructField>, slots: seq<Slot>)
    requires Compiles(s) && TypedSlots(s, fs, slots) && fs == []
    ensures EncSlots(s, fs, slots) == [] && Flags(fs, slots) == []
  {
  }

  const ITEM := StructItem("Item", [
    StructField("id", U32, false), StructField("quantity", U16, false), StructField("durability", U8, true)])

  function ItemValue(durability: Slot): Value
  {
    VStruct([Present(VUInt(5)), Present(VUInt(10)), durability])
  }

  lemma ItemTyped(s: Schema, durability: Slot)
    requires Lookup(s, "Item") == Some(ITEM) && (durability.Present? ==> durability.value == VUInt(100))
    ensures TypedItem(s, ITEM, ItemValue(durability)) && TypedSlots(s, ITEM.sfields, ItemValue(durability).slots)
  {
  }

  /**
   * The struct example: presence bits first, then the fields in declaration order, of which an absent
   * one takes no bytes.
   */
  lemma ItemExample(s: Schema)
    requires Compiles(s) && ScopedIn(s, ITEM)
    ensures var there, gone := ItemValue(Present(VUInt(100))), ItemValue(Absent);
      TypedItem(s, ITEM, there) && EncItem(s, ITEM, there) == [0x01, 0x05, 0x0A, 0x64] &&
      TypedItem(s, ITEM, gone) && EncItem(s, ITEM, gone) == [0x00, 0x05, 0x0A]
  {
    var there, gone := ItemValue(Present(VUInt(100))), ItemValue(Absent);
    ItemTyped(s, there.slots[2]);
    ItemTyped(s, gone.slots[2]);
    ThreeSlots(s, ITEM.sfields, there.slots);
    ThreeSlots(s, ITEM.sfields, gone.slots);
    OneFlag();
    hide Compiles, TypedItem, TypedSlots, EncSlots, PresenceBits, Flags;
  }

  lemma OneFlag()
    ensures PresenceBits([true]) == [0x01] && PresenceBits([false]) == [0x00]
  {
    assert [true][1..] == [] && [false][1..] == [];
  }

  /** Flag number k is bit k % 8 of byte k / 8, counted from the lowest. */
  lemma FlagPlaces(bits: seq<bool>, k: nat)
    requires k < |bits|
    ensures PresenceBits(bits)[k / 8] / [1, 2, 4, 8, 16, 32, 64, 128][k % 8] % 2 == 1 <==> bits[k]
  {
    hide PresenceBits, And;
    assert PresenceBits(bits) + [] == PresenceBits(bits);
    PresenceAt(bits, [], k);
    LowBit(Shr(PresenceBits(bits)[k / 8], k % 8));
    ShiftedDown(PresenceBits(bits)[k / 8], k % 8);
  }

  lemma ShiftedDown(a: nat, k: nat)
    requires k < 8
    ensures Shr(a, k) == a / [1, 2, 4, 8, 16, 32, 64, 128][k]
  {
    assert Shr(a, 0) == a && Shr(a, 1) == a / 2 && Shr(a, 2) == a / 4;
    assert Shr(a / 4, 1) == a / 8 && Shr(a / 4, 2) == a / 16;
    assert Shr(a, 3) == Shr(a / 4, 1) && Shr(a, 4) == Shr(a / 4, 2);
    assert Shr(a / 16, 1) == a / 32 && Shr(a / 16, 2) == a / 64;
    assert Shr(a, 5) == Shr(a / 4, 3) && Shr(a / 4, 3) == Shr(a / 16, 1);
    assert Shr(a, 6) == Shr(a / 4, 4) && Shr(a / 4, 4) == Shr(a / 16, 2);
    assert Shr(a / 64, 1) == a / 128;
    assert Shr(a, 7) == Shr(a / 4, 5) && Shr(a / 4, 5) == Shr(a / 16, 3) && Shr(a / 16, 3) == Shr(a / 64, 1);
  }
}
