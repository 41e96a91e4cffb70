/**
 * What the decoders make of bytes that no encoder writes: numbers too large, bytes that are no bool,
 * unknown variants, lengths that do not fit.
 */
module Refusals {
  import opened Wire
  import opened Bits
  import opened Schema
  import opened Values
  import opened Leb128
  import opened Encoder
  import opened Decoder

  // ---------------------------------------------------------------- types of one size

  /** Bools, bytes and floats are read back only from what is written for them; any other bool is refused. */
  lemma FixedCanonical(s: Schema, ty: Type, buf: bytes)
    requires Compiles(s) && ty in {Bool, U8, I8, F32, F64}
    ensures var p, size := Dec(s, ty, buf), if ty.F32? then 4 else if ty.F64? then 8 else 1;
      if p.Ok? then Typed(s, ty, p.value) && buf == Enc(s, ty, p.value) + p.rest
      else if |buf| < size then p == Err(UnexpectedEof, buf)
      else ty.Bool? && buf[0] > 1 && p == Err(InvalidBool(buf[0]), buf[1..])
  {
    hide Dec, Enc, Typed;
    if ty in {F32, F64} {
      FloatCanonical(s, ty, buf, if ty.F32? then 4 else 8);
    } else {
      ByteCanonical(s, ty, buf);
    }
  }

  lemma FloatCanonical(s: Schema, ty: Type, buf: bytes, size: nat)
    requires Compiles(s) && ((ty.F32? && size == 4) || (ty.F64? && size == 8))
    ensures var p := Dec(s, ty, buf);
      if p.Ok? then Typed(s, ty, p.value) && buf == Enc(s, ty, p.value) + p.rest
      else |buf| < size && p == Err(UnexpectedEof, buf)
    ensures |buf| < size ==> Dec(s, ty, buf).Err?
  {
    hide Dec, Compiles;
    FloatRead(s, ty, buf, size);
    if |buf| >= size {
      assert buf == buf[..size] + buf[size..];
    }
  }

  lemma FloatRead(s: Schema, ty: Type, buf: bytes, size: nat)
    requires Compiles(s) && ((ty.F32? && size == 4) || (ty.F64? && size == 8))
    ensures Dec(s, ty, buf) ==
      if |buf| < size then Err(UnexpectedEof, buf) else Ok(VFloat(buf[..size]), buf[size..])
  {
    hide Compiles, DecodeLeb;
  }

  lemma ByteCanonical(s: Schema, ty: Type, buf: bytes)
    requires Compiles(s) && ty in {Bool, U8, I8}
    ensures var p := Dec(s, ty, buf);
      if p.Ok? then Typed(s, ty, p.value) && buf == Enc(s, ty, p.value) + p.rest
      else if buf == [] then p == Err(UnexpectedEof, buf)
      else ty.Bool? && buf[0] > 1 && p == Err(InvalidBool(buf[0]), buf[1..])
    ensures buf == [] ==> Dec(s, ty, buf).Err?
  {
    hide Dec, Compiles, Signed;
    ByteRead(s, ty, buf);
    if buf != [] {
      ByteSigned(buf[0]);
      assert buf == [buf[0]] + buf[1..];
    }
  }

  lemma ByteRead(s: Schema, ty: Type, buf: bytes)
    requires Compiles(s) && ty in {Bool, U8, I8}
    ensures Dec(s, ty, buf) ==
      if buf == [] then Err(UnexpectedEof, buf)
      else if ty.U8? then Ok(VUInt(buf[0]), buf[1..])
      else if ty.I8? then Ok(VInt(Signed(buf[0], 8)), buf[1..])
      else if buf[0] > 1 then Err(InvalidBool(buf[0]), buf[1..])
      else Ok(VBool(buf[0] == 1), buf[1..])
  {
    hide Compiles, Signed, DecodeLeb;
    if buf != [] {
      assert buf[..1][0] == buf[0];
    }
  }

  lemma ByteSigned(b: byte)
    ensures Signed(b, 8) == if b < 128 then b else b - 256
  {
    Pow2Of8();
    LowFits(b, 8);
  }

  // ---------------------------------------------------------------- integers

  /** The limits of the integer types, in bits. */
  function Width(ty: Type): nat
  {
    if ty in {U16, I16} then 16 else if ty in {U32, I32} then 32 else 64
  }

  /** An unsigned integer keeps the low bits of its type of whatever number was written, as the cast does. */
  lemma UnsignedWraps(s: Schema, ty: Type, buf: bytes)
    requires Compiles(s) && ty in {U16, U32, U64}
    ensures var n := DecodeLeb(buf);
      Dec(s, ty, buf) ==
        if n.Err? then Err(n.error, n.rest)
        else
          Ok(VUInt(n.value % if ty.U16? then 0x1_0000 else if ty.U32? then 0x1_0000_0000 else 0x1_0000_0000_0000_0000),
             n.rest)
  {
    hide Compiles, DecodeLeb;
    if DecodeLeb(buf).Ok? {
      LebMinimal(buf);
    }
  }

  /** The number a zigzag code stands for. */
  function Unzigzag(n: nat): int { if n % 2 == 0 then n / 2 else -(n / 2) - 1 }

  /** A signed integer is the number of its type that agrees with the number written in its low bits. */
  lemma SignedWraps(s: Schema, ty: Type, buf: bytes)
    requires Compiles(s) && ty in {I16, I32, I64}
    ensures var n, p := DecodeLeb(buf), Dec(s, ty, buf);
      if n.Err? then p == Err(n.error, n.rest)
      else
        p.Ok? && p.rest == n.rest && p.value.VInt? && Typed(s, ty, p.value) &&
        (p.value.i - Unzigzag(n.value)) % Pow2(Width(ty)) == 0
  {
    hide Compiles, DecodeLeb, SignedVarint, Pow2;
    if DecodeLeb(buf).Ok? {
      LebMinimal(buf);
      var n, width := DecodeLeb(buf).value, Width(ty);
      VarintSigned(n, width);
      Pow2Halved();
    }
  }

  lemma Pow2Halved()
    ensures Pow2(15) == 0x8000 && Pow2(31) == 0x8000_0000 && Pow2(63) == 0x8000_0000_0000_0000
  {
    Pow2Of16();
    Pow2Of32();
    Pow2Of64();
  }

  lemma VarintSigned(n: nat, width: nat)
    requires n < TWO_64 && width in {16, 32, 64}
    ensures 0 - Pow2(width - 1) <= SignedVarint(n, width) < Pow2(width - 1)
    ensures (SignedVarint(n, width) - Unzigzag(n)) % Pow2(width) == 0
  {
    hide Signed, ZigzagDecode, Pow2;
    ZigzagDecodeValue(n);
    SignedAgrees(Bits64(ZigzagDecode(n)), width);
    Pow2Of16();
    Pow2Of32();
    Pow2Of64();
    assert Bits64(ZigzagDecode(n)) == if Unzigzag(n) < 0 then Unzigzag(n) + TWO_64 else Unzigzag(n);
  }

  /** Reading the low bits as a signed number changes them by a multiple of the register's size. */
  lemma SignedAgrees(bits: nat, width: nat)
    requires width in {16, 32, 64}
    ensures 0 - Pow2(width - 1) <= Signed(bits, width) < Pow2(width - 1)
    ensures (bits - Signed(bits, width)) % Pow2(width) == 0
  {
    hide Low, Pow2, Shr, Shl;
    var q := Shr(bits, width);
    LowAndHigh(bits, width);
    ShlIsProduct(q, width);
    Pow2Of16();
    Pow2Of32();
    Pow2Of64();
    Pow2Halved();
    WholeMultiples(q, Pow2(width));
  }

  lemma WholeMultiples(q: nat, size: nat)
    requires size in {0x1_0000, TWO_32, TWO_64}
    ensures q * size % size == 0 && (q * size + size) % size == 0
  {
    if size == 0x1_0000 {
      assert q * 0x1_0000 % 0x1_0000 == 0;
    } else if size == TWO_32 {
      assert q * TWO_32 % TWO_32 == 0;
    } else {
      assert q * TWO_64 % TWO_64 == 0;
    }
  }

  // ---------------------------------------------------------------- strings

  /** A text of as many bytes as announced, if they are there and are UTF-8; bad text is consumed all the same. */
  lemma TextRead(len: nat, text: bytes, rest: bytes)
    requires len < TWO_64
    ensures |text| == len ==>
      DecStr(len, text + rest) == if ValidUtf8(text) then Ok(VStr(text), rest) else Err(InvalidUtf8, rest)
    ensures |text| < len ==> DecStr(len, text) == Err(UnexpectedEof, text)
  {
    hide ValidUtf8;
    if |text| == len {
      assert (text + rest)[..len] == text && (text + rest)[len..] == rest;
    }
  }

  /** The same whether the length comes as part of the string or as that of a field. */
  lemma StringRead(s: Schema, len: nat, buf: bytes)
    requires Compiles(s) && len < TWO_64
    ensures Dec(s, Str, Leb(len) + buf) == DecStr(len, buf) && DecField(s, Str, Leb(len) + buf) == DecStr(len, buf)
  {
    hide Compiles, DecodeLeb, DecStr, Leb;
    LebRoundTrip(len, buf);
    assert WireType(s, Str) == BYTES;
  }

  // ---------------------------------------------------------------- enums and unions

  /** Of the number read the low 32 bits count; an index that is not declared is refused by its number. */
  lemma EnumRead(s: Schema, n: string, number: nat, rest: bytes)
    requires Compiles(s) && Scoped(s, Named(n)) && Lookup(s, n).value.EnumItem? && number < TWO_64
    ensures var index := number % 0x1_0000_0000;
      Dec(s, Named(n), Leb(number) + rest) ==
        if exists v <- Lookup(s, n).value.evariants :: v.index == index then Ok(VEnum(index), rest)
        else Err(UnknownEnumVariant(index), rest)
  {
    hide Compiles, DecodeLeb, Leb;
    LebRoundTrip(number, rest);
  }

  /**
   * A tag that names no declared variant is refused by its index, whatever its wire type, and nothing
   * behind it is read.
   */
  lemma UnionRefused(s: Schema, n: string, tag: nat, rest: bytes)
    requires Compiles(s) && Scoped(s, Named(n)) && Lookup(s, n).value.UnionItem? && tag < TWO_64
    requires forall v <- Lookup(s, n).value.uvariants :: v.index != tag / 8 % TWO_32
    ensures Dec(s, Named(n), Leb(tag) + rest) == Err(UnknownUnionVariant(tag / 8 % 0x1_0000_0000), rest)
  {
    hide Dec, Compiles, DecodeLeb, Leb, DecUnion, Scoped;
    UnionDecoded(s, n, Leb(tag) + rest);
    LebRoundTrip(tag, rest);
    NoVariant(s, n, Leb(tag) + rest);
  }

  lemma NoVariant(s: Schema, n: string, buf: bytes)
    requires Compiles(s) && Scoped(s, Named(n)) && Lookup(s, n).value.UnionItem? && DecodeLeb(buf).Ok?
    requires forall v <- Lookup(s, n).value.uvariants :: v.index != DecodeLeb(buf).value / 8 % TWO_32
    ensures DecUnion(s, n, buf) == Err(UnknownUnionVariant(DecodeLeb(buf).value / 8 % TWO_32), DecodeLeb(buf).rest)
  {
    assert ScopedItem(s, Lookup(s, n).value);
    hide Compiles, DecodeLeb, ScopedItem, DecField;
    assert VariantAt(Lookup(s, n).value.uvariants, DecodeLeb(buf).value / 8 % TWO_32).None?;
  }

  lemma UnionDecoded(s: Schema, n: string, buf: bytes)
    requires Compiles(s) && Scoped(s, Named(n)) && Lookup(s, n).value.UnionItem?
    ensures Dec(s, Named(n), buf) == DecUnion(s, n, buf)
  {
    hide Compiles, DecItem, DecUnion;
    ItemDecoded(s, n, buf);
  }

  lemma ItemDecoded(s: Schema, n: string, buf: bytes)
    requires Compiles(s) && Scoped(s, Named(n)) && Lookup(s, n).value.UnionItem?
    ensures DecItem(s, n, buf) == DecUnion(s, n, buf)
  {
    assert ScopedItem(s, Lookup(s, n).value);
    hide Compiles, DecUnion, ScopedItem;
  }

  // ---------------------------------------------------------------- arrays as fields

  /**
   * An array of elements of one size: a length that is no multiple of it is refused before any
   * element is read, and one that reaches past the input is an early end; the cursor then stands
   * behind the length.
   */
  lemma ArrayRefused(s: Schema, t: Type, len: nat, buf: bytes)
    requires Compiles(s) && Scoped(s, t) && FixedSize(s, t).Some? && FixedSize(s, t).value > 0 && len < TWO_64
    requires |buf| < len || len % FixedSize(s, t).value != 0
    ensures DecField(s, Array(t), Leb(len) + buf) == Err(if |buf| < len then UnexpectedEof else InvalidLength, buf)
  {
    hide Compiles, FixedSize, Scoped, DecField, DecSliceElems, Leb, DecDelimited;
    ArrayIsBytes(s, t);
    FieldLength(s, Array(t), len, buf);
    ArraySlice(s, t, len, buf);
    if len <= |buf| {
      SliceRefused(s, t, buf[..len]);
    }
  }

  /** The length in front of a struct is read and not looked at: any other would do. */
  lemma StructLength(s: Schema, n: string, len: nat, buf: bytes)
    requires Compiles(s) && Scoped(s, Named(n)) && Lookup(s, n).value.StructItem? && len < TWO_64
    ensures DecField(s, Named(n), Leb(len) + buf) == Dec(s, Named(n), buf)
  {
    hide Compiles, Dec, DecField, Leb;
    FieldLength(s, Named(n), len, buf);
  }

  lemma FieldLength(s: Schema, ty: Type, len: nat, buf: bytes)
    requires Compiles(s) && Scoped(s, ty) && WireType(s, ty) == BYTES && len < TWO_64
    ensures DecField(s, ty, Leb(len) + buf) == DecDelimited(s, ty, len, buf)
  {
    hide Compiles, DecDelimited, DecodeLeb, Leb, Scoped, WireType;
    LebRoundTrip(len, buf);
  }

  lemma ArraySlice(s: Schema, t: Type, len: nat, buf: bytes)
    requires Compiles(s) && Scoped(s, t) && Scoped(s, Array(t))
    ensures DecDelimited(s, Array(t), len, buf) ==
      if |buf| < len then Err(UnexpectedEof, buf) else Within(DecSliceElems(s, t, buf[..len]), len, buf)
  {
    hide Compiles, DecSliceElems, Scoped;
  }

  lemma SliceRefused(s: Schema, t: Type, slice: bytes)
    requires Compiles(s) && Scoped(s, t) && FixedSize(s, t).Some? && FixedSize(s, t).value > 0
    requires |slice| % FixedSize(s, t).value != 0
    ensures DecSliceElems(s, t, slice).Err? && DecSliceElems(s, t, slice).error == InvalidLength
  {
    hide Compiles, FixedSize, Scoped, DecElems;
  }

  lemma ArrayIsBytes(s: Schema, t: Type)
    requires Scoped(s, t)
    ensures Scoped(s, Array(t)) && WireType(s, Array(t)) == BYTES
  {
  }

  // ---------------------------------------------------------------- tags and keys

  /**
   * Only a whole zero ends a message: a tag of index 0 with a wire type other than 0 names a field
   * like another, an unknown one.
   */
  lemma EveryTag(tag: nat, rest: bytes)
    requires tag < TWO_64
    ensures DecodeTag(Leb(tag) + rest) ==
      Ok(if tag == 0 then None else Some(FieldTag(tag / 8 % 0x1_0000_0000, tag % 8)), rest)
  {
    hide DecodeLeb, Leb;
    LebRoundTrip(tag, rest);
  }

  /** A key met again keeps its place and takes the new value; a new one goes behind the others. */
  lemma {:induction false} InsertedAt(es: seq<Entry>, key: Value, val: Value)
    requires DistinctKeys(es)
    ensures forall j :: 0 <= j < |es| && es[j].key == key ==> InsertEntry(es, key, val) == es[j := Entry(key, val)]
    ensures (forall e <- es :: e.key != key) ==> InsertEntry(es, key, val) == es + [Entry(key, val)]
  {
    if es != [] && es[0].key != key {
      InsertedAt(es[1..], key, val);
      forall j | 0 <= j < |es| && es[j].key == key ensures InsertEntry(es, key, val) == es[j := Entry(key, val)] {
        assert es[1..][j - 1] == es[j];
        assert [es[0]] + es[1..][j - 1 := Entry(key, val)] == es[j := Entry(key, val)];
      }
    } else if es != [] {
      assert [Entry(key, val)] + es[1..] == es[0 := Entry(key, val)];
    }
  }
}
