/**
 * The TypeScript runtime's buffers and varints: a byte array that doubles when full, and LEB128 by
 * division and multiplication of doubles.
 */
module TsRuntime {
  import opened Wire
  import opened Bits
  import opened Leb128

  const TWO_53: int := 0x20_0000_0000_0000

  // ---------------------------------------------------------------- WriteBuf

  class WriteBuf {
    var buffer: array<byte>
    var position: nat

    ghost predicate Valid()
      reads this
    {
      position <= buffer.Length && buffer.Length > 0
    }

    ghost function Contents(): bytes
      requires Valid()
      reads this, buffer
    {
      buffer[..position]
    }

    /** A capacity of 0 would never grow; the default is 256 and no caller passes another. */
    constructor (initialCapacity: nat)
      requires initialCapacity > 0
      ensures Valid() && fresh(buffer) && Contents() == []
    {
      buffer := new byte[initialCapacity](_ => 0);
      position := 0;
    }

    /** Doubles the capacity until `additional` more bytes fit; what was written stays. */
    method EnsureCapacity(additional: nat)
      requires Valid()
      modifies this`buffer
      ensures Valid() && Contents() == old(Contents()) && position + additional <= buffer.Length
      ensures buffer == old(buffer) || (fresh(buffer) && buffer.Length >= 2 * old(buffer.Length))
    {
      var required := position + additional;
      if required <= buffer.Length {
        return;
      }
      var newCapacity := buffer.Length * 2;
      while newCapacity < required
        invariant newCapacity >= 2 * buffer.Length
      {
        newCapacity := newCapacity * 2;
      }
      var oldBuffer := buffer;
      var newBuffer := new byte[newCapacity](i requires 0 <= i reads oldBuffer =>
        if i < oldBuffer.Length then oldBuffer[i] else 0);
      buffer := newBuffer;
      assert buffer[..position] == oldBuffer[..position];
    }

    method Push(data: bytes)
      requires Valid()
      modifies this, buffer
      ensures Valid() && Contents() == old(Contents()) + data
      ensures buffer == old(buffer) || fresh(buffer)
    {
      EnsureCapacity(|data|);
      ghost var before := Contents();
      forall i | 0 <= i < |data| {
        buffer[position + i] := data[i];
      }
      assert buffer[..position] == before;
      position := position + |data|;
      assert buffer[..position] == before + data;
    }

    method PushByte(b: byte)
      requires Valid()
      modifies this, buffer
      ensures Valid() && Contents() == old(Contents()) + [b]
      ensures buffer == old(buffer) || fresh(buffer)
    {
      EnsureCapacity(1);
      buffer[position] := b;
      position := position + 1;
    }

    method ToUint8Array() returns (r: bytes)
      requires Valid()
      ensures r == Contents()
    {
      r := buffer[..position];
    }
  }

  // ---------------------------------------------------------------- varints

  /**
   * The bytes the u64 loops of Rust and Go write, from `& 0x7f`, `| 0x80` and division by 128, all of
   * them exact on whatever whole number the double `value` is.
   */
  method EncodeVarint(value: nat, buf: WriteBuf)
    requires buf.Valid()
    modifies buf, buf.buffer
    ensures buf.Valid() && buf.Contents() == old(buf.Contents()) + Leb(value)
    ensures buf.buffer == old(buf.buffer) || fresh(buf.buffer)
  {
    hide And, Or;
    var v := value;
    while v > 0x7F
      invariant buf.Valid() && buf.Contents() + Leb(v) == old(buf.Contents()) + Leb(value)
      invariant buf.buffer == old(buf.buffer) || fresh(buf.buffer)
      decreases v
    {
      ghost var before := buf.Contents();
      SevenBits(v);
      buf.PushByte(Or(And(v, 0x7F), 0x80));
      assert before + Leb(v) == buf.Contents() + Leb(v / 128);
      v := v / 128;
    }
    SevenBits(v);
    buf.PushByte(And(v, 0x7F));
  }

  /**
   * A non-negative double as far as its value is certain: a whole number that is represented
   * exactly, some number of 2^53 or more (Infinity included), or not a number.
   */
  datatype Number = Exact(n: nat) | Huge | NaN

  function Num(n: nat): Number
  {
    if n < TWO_53 then Exact(n) else Huge
  }

  /** Rounding never takes a sum of 2^53 or more below 2^53, or one below 2^53 anywhere else. */
  function Plus(a: Number, b: Number): Number
  {
    if a.NaN? || b.NaN? then NaN
    else if a.Huge? || b.Huge? then Huge
    else Num(a.n + b.n)
  }

  /** `digit * Math.pow(2, shift)`: the power is Infinity from 2^1024 on, and 0 times it is no number. */
  function Times(digit: nat, shift: nat): Number
  {
    if shift < 1024 then Num(Shl(digit, shift)) else if digit == 0 then NaN else Huge
  }

  datatype Decoded = Decoded(number: Number, next: nat)

  /** What is read past the end is `undefined`, which the operators take for 0. */
  function ByteAt(data: bytes, offset: nat): byte
  {
    if offset < |data| then data[offset] else 0
  }

  /** The loop of `decodeVarint` from one of its turns on. */
  function ReadFrom(data: bytes, offset: nat, shift: nat, result: Number): (r: Decoded)
    ensures offset < r.next && (r.next <= |data| + 1 || offset > |data|)
    decreases |data| - offset
  {
    var b := ByteAt(data, offset);
    var sum := Plus(result, Times(b % 128, shift));
    if b < 128 then Decoded(sum, offset + 1) else ReadFrom(data, offset + 1, shift + 7, sum)
  }

  /** It never fails, and ends one beyond the data if the data ends first. */
  function ReadNumber(data: bytes, offset: nat): (r: Decoded)
    ensures offset < r.next && (r.next <= |data| + 1 || offset > |data|)
  {
    ReadFrom(data, offset, 0, Exact(0))
  }

  class Buf {
    var data: bytes
    var offset: nat

    constructor (d: bytes, o: nat)
      ensures data == d && offset == o
    {
      data := d;
      offset := o;
    }
  }

  method DecodeVarint(buf: Buf) returns (r: Number)
    modifies buf`offset
    ensures Decoded(r, buf.offset) == ReadNumber(buf.data, old(buf.offset))
  {
    hide And, Plus, Times;
    r := Exact(0);
    var shift := 0;
    while true
      invariant ReadFrom(buf.data, buf.offset, shift, r) == ReadNumber(buf.data, old(buf.offset))
      decreases |buf.data| - buf.offset
    {
      var b := ByteAt(buf.data, buf.offset);
      buf.offset := buf.offset + 1;
      SevenBits(b);
      r := Plus(r, Times(And(b, 0x7F), shift));
      if And(b, 0x80) == 0 {
        break;
      }
      shift := shift + 7;
    }
  }

  // ---------------------------------------------------------------- the numbers that are meant

  datatype Varint = Varint(value: nat, next: nat)

  /** The number the digits stand for, whatever its size, and where they end. */
  function ReadVarint(data: bytes, offset: nat): (r: Varint)
    ensures r.next > offset
    ensures r.next <= |data| + 1 || offset > |data|
    decreases |data| - offset
  {
    if offset >= |data| then Varint(0, offset + 1)
    else if data[offset] < 128 then Varint(data[offset], offset + 1)
    else
      var more := ReadVarint(data, offset + 1);
      Varint(data[offset] % 128 + 128 * more.value, more.next)
  }

  /** From `shift` on, some digit 0 meets a power that is Infinity. */
  predicate ZeroFar(data: bytes, offset: nat, shift: nat)
    decreases |data| - offset
  {
    var b := ByteAt(data, offset);
    (b % 128 == 0 && shift >= 1024) || (b >= 128 && ZeroFar(data, offset + 1, shift + 7))
  }

  /** Bytes with the continuation bit in front of the last byte of a varint. */
  function Continuations(data: bytes, offset: nat): nat
    decreases |data| - offset
  {
    if ByteAt(data, offset) < 128 then 0 else 1 + Continuations(data, offset + 1)
  }

  lemma ShlZeroBits(a: nat)
    ensures Shl(a, 0) == a
  {
  }

  lemma {:induction false} ShlAtLeast(a: nat, k: nat)
    requires a > 0
    ensures Shl(a, k) >= Pow2(k)
  {
    if k > 0 {
      ShlAtLeast(a, k - 1);
    }
  }

  lemma FarIsHuge(a: nat, shift: nat)
    requires a > 0 && shift >= 1024
    ensures Num(Shl(a, shift)) == Huge
  {
    hide Shl, Pow2;
    ShlAtLeast(a, shift);
    Pow2Monotone(64, shift);
    Pow2Of64();
  }

  lemma {:induction false} StaysNaN(data: bytes, offset: nat, shift: nat)
    ensures ReadFrom(data, offset, shift, NaN) == Decoded(NaN, ReadVarint(data, offset).next)
    decreases |data| - offset
  {
    hide Times;
    if ByteAt(data, offset) >= 128 {
      StaysNaN(data, offset + 1, shift + 7);
    }
  }

  /** One digit added, when its power is a number. */
  lemma DigitAdded(result: Number, digit: nat, more: nat, shift: nat)
    requires digit < 128 && !result.NaN? && (digit > 0 || shift < 1024)
    ensures var sum := Plus(result, Times(digit, shift));
      !sum.NaN? && Plus(sum, Num(Shl(more, shift + 7))) == Plus(result, Num(Shl(digit + 128 * more, shift)))
      && sum == Plus(result, Num(Shl(digit, shift)))
  {
    hide Shl;
    if shift >= 1024 {
      FarIsHuge(digit, shift);
    }
    ShlAdd(digit, 128 * more, shift);
    ShlSeven(more, shift);
  }

  /** The loop computes the number meant, as a double, unless a digit 0 comes too late. */
  lemma {:induction false} ReadsWhatIsMeant(data: bytes, offset: nat, shift: nat, result: Number)
    requires !result.NaN?
    ensures var r := ReadVarint(data, offset);
      ReadFrom(data, offset, shift, result) ==
        Decoded(if ZeroFar(data, offset, shift) then NaN else Plus(result, Num(Shl(r.value, shift))), r.next)
    decreases |data| - offset
  {
    hide Shl, Plus, Times;
    var b := ByteAt(data, offset);
    if b % 128 == 0 && shift >= 1024 {
      assert Plus(result, Times(0, shift)) == NaN by { NoNumber(result, shift); }
      if b >= 128 {
        StaysNaN(data, offset + 1, shift + 7);
      }
    } else if b < 128 {
      DigitAdded(result, b, 0, shift);
    } else {
      DigitAdded(result, b % 128, ReadVarint(data, offset + 1).value, shift);
      ReadsWhatIsMeant(data, offset + 1, shift + 7, Plus(result, Times(b % 128, shift)));
    }
  }

  lemma NoNumber(result: Number, shift: nat)
    requires shift >= 1024
    ensures Plus(result, Times(0, shift)) == NaN
  {
  }

  /** `decodeVarint` is exact below 2^53, says so above, and fails on a digit 0 at byte 148 or later only. */
  lemma NumberMeant(data: bytes, offset: nat)
    ensures var r := ReadVarint(data, offset);
      ReadNumber(data, offset) == Decoded(if ZeroFar(data, offset, 0) then NaN else Num(r.value), r.next)
  {
    hide Shl, ReadFrom;
    ReadsWhatIsMeant(data, offset, 0, Exact(0));
    ShlZeroBits(ReadVarint(data, offset).value);
  }

  lemma {:induction false} ShortIsANumber(data: bytes, offset: nat, before: nat)
    requires before + Continuations(data, offset) < 147
    ensures !ZeroFar(data, offset, 7 * before)
    decreases |data| - offset
  {
    if ByteAt(data, offset) >= 128 {
      ShortIsANumber(data, offset + 1, before + 1);
    }
  }

  // ---------------------------------------------------------------- against the other runtimes

  /** Reading back what any of the runtimes wrote. */
  lemma {:induction false} VarintRoundTrip(n: nat, before: bytes, rest: bytes)
    ensures ReadVarint(before + Leb(n) + rest, |before|) == Varint(n, |before| + |Leb(n)|)
    decreases n
  {
    var data := before + Leb(n) + rest;
    assert data[|before|] == Leb(n)[0];
    if n >= 128 {
      var head := before + [128 + n % 128];
      assert data == head + Leb(n / 128) + rest;
      VarintRoundTrip(n / 128, head, rest);
    }
  }

  lemma {:induction false} LebContinues(n: nat, before: bytes, rest: bytes)
    ensures Continuations(before + Leb(n) + rest, |before|) == |Leb(n)| - 1
    decreases n
  {
    var data := before + Leb(n) + rest;
    assert data[|before|] == Leb(n)[0];
    if n >= 128 {
      var head := before + [128 + n % 128];
      assert data == head + Leb(n / 128) + rest;
      LebContinues(n / 128, head, rest);
    }
  }

  /** Any u64 comes back as the double it is, or as some number of 2^53 or more. */
  lemma NumberRoundTrip(n: nat, before: bytes, rest: bytes)
    requires n < TWO_64
    ensures ReadNumber(before + Leb(n) + rest, |before|) == Decoded(Num(n), |before| + |Leb(n)|)
    ensures Continuations(before + Leb(n) + rest, |before|) < 10
  {
    hide Leb, ReadNumber, ReadVarint, Num;
    var data := before + Leb(n) + rest;
    VarintRoundTrip(n, before, rest);
    LebContinues(n, before, rest);
    LebAtMostTen(n);
    ShortIsANumber(data, |before|, 0);
    NumberMeant(data, |before|);
  }

  /** Exact up to 2^53 - 1, as the ids of calls and the codes of errors are; no more than that from there on. */
  lemma ExactOrHuge(n: nat, before: bytes, rest: bytes)
    requires n < TWO_64
    ensures ReadNumber(before + Leb(n) + rest, |before|).number == if n < 0x20_0000_0000_0000 then Exact(n) else Huge
  {
    hide ReadNumber, Leb;
    NumberRoundTrip(n, before, rest);
  }

  /**
   * Whenever the u64 loop succeeds, both stop at the same byte, and both hold the same number up to
   * what they can hold: its low 64 bits here, the double or a number of 2^53 or more there.
   */
  lemma AgreesWithU64(data: bytes)
    requires DecodeLeb(data).Ok?
    ensures var r := ReadVarint(data, 0);
      r.next <= |data| && DecodeLeb(data) == Ok(Low(r.value, 64), data[r.next..])
      && ReadNumber(data, 0) == Decoded(Num(r.value), r.next)
  {
    hide Low, Shl, LebFrom, ReadVarint, Num;
    assert data[0..] == data;
    AgreesFrom(data, 0, 0, 0);
    ShlZeroBits(ReadVarint(data, 0).value);
    ContinuesAsLong(data, 0, 0, 0);
    ShortIsANumber(data, 0, 0);
    NumberMeant(data, 0);
  }

  lemma {:induction false} ContinuesAsLong(data: bytes, offset: nat, shift: nat, acc: nat)
    requires offset <= |data| && LebFrom(data[offset..], shift, acc).Ok?
    ensures 7 * Continuations(data, offset) + shift < 64
    decreases |data| - offset
  {
    hide Low, Shl;
    assert data[offset..][1..] == data[offset + 1..];
    if data[offset] >= 128 {
      ContinuesAsLong(data, offset + 1, shift + 7, acc + Low(Shl(data[offset] % 128, shift), 64));
    }
  }

  lemma {:induction false} AgreesFrom(data: bytes, offset: nat, shift: nat, acc: nat)
    requires offset <= |data| && LebFrom(data[offset..], shift, acc).Ok?
    ensures var r := ReadVarint(data, offset);
      r.next <= |data| && LebFrom(data[offset..], shift, acc) == Ok(acc + Low(Shl(r.value, shift), 64), data[r.next..])
    decreases |data| - offset
  {
    hide Low, Shl, LebFrom;
    var b := data[offset];
    LebFromCons(b, data[offset + 1..], shift, acc);
    assert data[offset..] == [b] + data[offset + 1..];
    if b >= 128 {
      AgreesFrom(data, offset + 1, shift + 7, acc + Low(Shl(b % 128, shift), 64));
      SplitLow(b % 128, ReadVarint(data, offset + 1).value, shift);
    }
  }

  /** The lowest seven bits of a number and the rest are cut off at 64 independently. */
  lemma SplitLow(d: nat, more: nat, shift: nat)
    requires d < 128 && shift + 7 <= 64
    ensures Low(Shl(d + 128 * more, shift), 64) == Low(Shl(d, shift), 64) + Low(Shl(more, shift + 7), 64)
  {
    hide Low, Shl;
    LowOfShl(d + 128 * more, shift, 64);
    LowOfShl(d, shift, 64);
    LowOfShl(more, shift + 7, 64);
    LowSevenUp(d, more, 57 - shift);
    ShlAdd(d, 128 * Low(more, 57 - shift), shift);
    ShlSeven(Low(more, 57 - shift), shift);
  }

  lemma LowSevenUp(d: nat, more: nat, k: nat)
    requires d < 128
    ensures Low(d + 128 * more, k + 7) == d + 128 * Low(more, k) && Low(d, k + 7) == d
  {
    hide Low;
    var n := d + 128 * more;
    LowUp(n, k);
    LowUp(d, k);
    assert n / 128 == more && n % 128 == d && d / 128 == 0;
    LowOfZero(k);
  }

  lemma {:induction false} LowOfZero(k: nat)
    ensures Low(0, k) == 0
  {
  }

  /** Seven steps of the definition of `Low`. */
  lemma LowUp(n: nat, k: nat)
    ensures Low(n, k + 7) == 128 * Low(n / 128, k) + n % 128
  {
    hide Low;
    LowTwo(n, k + 5);
    LowTwo(n / 4, k + 3);
    LowTwo(n / 16, k + 1);
    assert n / 4 / 4 == n / 16 && n / 16 / 4 == n / 64;
    LowStep(n / 64, k);
    assert n / 64 / 2 == n / 128;
  }

  lemma LowStep(n: nat, k: nat)
    ensures Low(n, k + 1) == 2 * Low(n / 2, k) + n % 2
  {
  }
}
