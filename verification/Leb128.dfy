/** LEB128 and zigzag: the u64 shift-and-mask loops of the Rust and Go runtimes. */
module Leb128 {
  import opened Wire
  import opened Bits

  // ---------------------------------------------------------------- specification

  /** Unsigned LEB128 (section 7.6 of DWARF 5): seven bits a byte, low bits first. */
  function Leb(n: nat): (r: bytes)
    ensures |r| >= 1
  {
    if n < 128 then [n] else [128 + n % 128] + Leb(n / 128)
  }

  /** The u64 decoder, `shift` bits and value `acc` into a number. Bits above 2^64 are shifted out. */
  function LebFrom(buf: bytes, shift: nat, acc: nat): (r: Parse<nat>)
    ensures Suffix(r.rest, buf)
    ensures r.Ok? ==> |r.rest| < |buf| && shift < 64
  {
    if buf == [] then Err(UnexpectedEof, buf)
    else if shift >= 64 then Err(Leb128Overflow, buf[1..])
    else
      var next := acc + Low(Shl(buf[0] % 128, shift), 64);
      if buf[0] < 128 then Ok(next, buf[1..]) else LebFrom(buf[1..], shift + 7, next)
  }

  function DecodeLeb(buf: bytes): (r: Parse<nat>)
    ensures Suffix(r.rest, buf)
    ensures r.Ok? ==> |r.rest| < |buf|
  {
    LebFrom(buf, 0, 0)
  }

  // ---------------------------------------------------------------- round trip

  /** Seven bits peeled off a shifted number. */
  lemma PeelSeven(n: nat, shift: nat)
    ensures Shl(n, shift) == Shl(n / 128, shift + 7) + Shl(n % 128, shift)
  {
    hide Shl;
    ShlAdd(128 * (n / 128), n % 128, shift);
    ShlSeven(n / 128, shift);
  }

  lemma LebFromCons(b: byte, tail: bytes, shift: nat, acc: nat)
    requires shift < 64
    ensures LebFrom([b] + tail, shift, acc) ==
      var next := acc + Low(Shl(b % 128, shift), 64);
      if b < 128 then Ok(next, tail) else LebFrom(tail, shift + 7, next)
  {
    hide Low, Shl;
    assert ([b] + tail)[1..] == tail;
  }

  lemma LebCons(n: nat, rest: bytes)
    ensures Leb(n) + rest == if n < 128 then [n] + rest else [128 + n % 128] + (Leb(n / 128) + rest)
  {
  }

  lemma {:induction false} LebFromInverse(n: nat, shift: nat, acc: nat, rest: bytes)
    requires shift < 64 && acc + Shl(n, shift) < TWO_64
    ensures LebFrom(Leb(n) + rest, shift, acc) == Ok(acc + Shl(n, shift), rest)
    decreases n
  {
    hide LebFrom, Shl, Low, Leb, Pow2;
    LebCons(n, rest);
    PeelSeven(n, shift);
    var part := Shl(n % 128, shift);
    Pow2Of64();
    LowFits(part, 64);
    if n < 128 {
      ShlZero(shift + 7);
      LebFromCons(n, rest, shift, acc);
    } else {
      var b, tail := 128 + n % 128, Leb(n / 128) + rest;
      TopShift(n / 128, shift + 7);
      LebFromInverse(n / 128, shift + 7, acc + part, rest);
      LebFromCons(b, tail, shift, acc);
    }
  }

  lemma TopShift(q: nat, k: nat)
    requires q >= 1 && Shl(q, k) < TWO_64
    ensures k < 64
  {
    hide Shl;
    Pow2Of64();
    ShlAdd(q - 1, 1, k);
    ShlOne(k);
    if k >= 64 {
      Pow2Monotone(64, k);
    }
  }

  /** Every u64 decodes to itself and leaves exactly what follows it. */
  lemma LebRoundTrip(n: nat, rest: bytes)
    requires n < TWO_64
    ensures DecodeLeb(Leb(n) + rest) == Ok(n, rest)
  {
    LebFromInverse(n, 0, 0, rest);
  }

  /** No number's bytes are the beginning of another's, for numbers of any size. */
  lemma {:induction false} LebPrefixFree(a: nat, b: nat, x: bytes, y: bytes)
    requires Leb(a) + x == Leb(b) + y
    ensures a == b && x == y
    decreases a
  {
    hide Leb;
    FirstByte(a, x);
    FirstByte(b, y);
    if a >= 128 {
      LebPrefixFree(a / 128, b / 128, x, y);
    }
  }

  lemma FirstByte(n: nat, rest: bytes)
    ensures (Leb(n) + rest)[0] == if n < 128 then n else 128 + n % 128
    ensures (Leb(n) + rest)[1..] == if n < 128 then rest else Leb(n / 128) + rest
  {
    if n >= 128 {
      assert Leb(n) + rest == [128 + n % 128] + (Leb(n / 128) + rest);
    }
  }

  lemma {:induction false} LebLength(n: nat, k: nat)
    requires k >= 1
    ensures |Leb(n)| <= k <==> n < Pow2(7 * k)
    decreases n
  {
    Pow2Seven(7 * (k - 1));
    if k == 1 {
      assert n >= 128 ==> |Leb(n)| >= 2;
    } else if n < 128 {
      Pow2Monotone(0, 7 * (k - 1));
    } else {
      LebLength(n / 128, k - 1);
    }
  }

  /** Seven more bits keep the value below 2^(shift + 7) and below 2^64; or-ing them in adds them. */
  lemma ShiftedPart(acc: nat, d: nat, shift: nat)
    requires acc < Pow2(shift) && d < 128 && shift < 64
    ensures var part := Low(Shl(d, shift), 64);
      acc + part < TWO_64 && acc + part < Pow2(shift + 7) && Or(acc, part) == acc + part
  {
    hide Low, Shl, Or;
    LowOfShl(d, shift, 64);
    var e := Low(d, 64 - shift);
    OrDisjoint(acc, e, shift);
    ShlBound(e, 64 - shift, shift);
    Pow2Of64();
    Pow2Seven(0);
    assert Pow2(7) == 128;
    ShlBound(e, 7, shift);
  }

  lemma {:induction false} LebFromBound(buf: bytes, shift: nat, acc: nat)
    requires acc < Pow2(shift) && LebFrom(buf, shift, acc).Ok?
    ensures var r := LebFrom(buf, shift, acc); var top := shift + 7 * (|buf| - |r.rest|);
      r.value < TWO_64 && r.value < Pow2(top) && top < 64 + 7
    decreases |buf|
  {
    hide Low, Shl, Pow2, LebFrom;
    ShiftedPart(acc, buf[0] % 128, shift);
    assert buf == [buf[0]] + buf[1..];
    LebFromCons(buf[0], buf[1..], shift, acc);
    if buf[0] >= 128 {
      LebFromBound(buf[1..], shift + 7, acc + Low(Shl(buf[0] % 128, shift), 64));
    }
  }

  /** The encoder is minimal: no accepted input for n is shorter than Leb(n); at most ten bytes are read. */
  lemma LebMinimal(buf: bytes)
    requires DecodeLeb(buf).Ok?
    ensures var r := DecodeLeb(buf); r.value < TWO_64 && |Leb(r.value)| <= |buf| - |r.rest| <= 10
  {
    var r := DecodeLeb(buf);
    LebFromBound(buf, 0, 0);
    LebLength(r.value, |buf| - |r.rest|);
  }

  lemma LebAtMostTen(n: nat)
    ensures n < TWO_64 ==> |Leb(n)| <= 10
    ensures |Leb(n)| == 1 <==> n < 128
  {
    LebLength(n, 10);
    Pow2Of64();
    Pow2Monotone(64, 70);
  }

  // ---------------------------------------------------------------- zigzag

  ghost predicate IsI64(n: int) { -0x8000_0000_0000_0000 <= n < 0x8000_0000_0000_0000 }

  /** The bit pattern of an i64, in two's complement. */
  function Bits64(n: int): nat
    requires IsI64(n)
  {
    if n < 0 then n + TWO_64 else n
  }

  /** The low `width` bits of a register, read as a signed number: `as i16`, `as i32`, `as i64`. */
  function Signed(bits: nat, width: nat): int
  {
    var b := Low(bits, width);
    if 2 * b < Pow2(width) then b else b - Pow2(width)
  }

  /** (n << 1) ^ (n >> 63): the right shift is arithmetic, all ones for a negative n. */
  function ZigzagEncode(n: int): nat
    requires IsI64(n)
  {
    Xor(Low(Shl(Bits64(n), 1), 64), if n < 0 then TWO_64 - 1 else 0)
  }

  /** (n >> 1) ^ -(n & 1), reinterpreted as an i64. */
  function ZigzagDecode(n: nat): int
    requires n < TWO_64
  {
    Signed(Xor(Shr(n, 1), if And(n, 1) == 1 then TWO_64 - 1 else 0), 64)
  }

  lemma ZigzagValue(n: int)
    requires IsI64(n)
    ensures ZigzagEncode(n) == (if n >= 0 then 2 * n else -2 * n - 1)
    ensures ZigzagEncode(n) < TWO_64
  {
    Pow2Of64();
    assert Shl(Bits64(n), 1) == 2 * Bits64(n);
    if n < 0 {
      ShlOne(64);
      LowDrops(2 * n + TWO_64, 1, 64);
      LowFits(2 * n + TWO_64, 64);
      XorOnes(2 * n + TWO_64, 64);
    } else {
      LowFits(2 * n, 64);
      XorZero(2 * n);
    }
  }

  lemma ZigzagDecodeValue(n: nat)
    requires n < TWO_64
    ensures ZigzagDecode(n) == (if n % 2 == 0 then n / 2 else -(n / 2) - 1)
    ensures IsI64(ZigzagDecode(n))
  {
    Pow2Of64();
    assert Shr(n, 1) == n / 2;
    LowBit(n);
    if n % 2 == 0 {
      XorZero(n / 2);
      LowFits(n / 2, 64);
    } else {
      XorOnes(n / 2, 64);
      LowFits(TWO_64 - 1 - n / 2, 64);
    }
  }

  /** A number that fits `width` bits survives the cast of its 64-bit pattern to that width. */
  lemma SignedFits(i: int, width: nat)
    requires 0 < width <= 64 && IsI64(i) && 0 - Pow2(width - 1) <= i < Pow2(width - 1)
    ensures Signed(Bits64(i), width) == i
  {
    hide Low, Shl;
    Pow2Of64();
    if i >= 0 {
      LowFits(i, width);
    } else {
      var q := Pow2(64 - width) - 1;
      ShlAdd(q, 1, width);
      ShlOne(width);
      ShlPow2(64 - width, width);
      LowDrops(i + Pow2(width), q, width);
      LowFits(i + Pow2(width), width);
    }
  }

  lemma SignedByte(i: int)
    requires -128 <= i < 128
    ensures Signed(if i < 0 then i + 256 else i, 8) == i
  {
    Pow2Of8();
    LowFits(if i < 0 then i + 256 else i, 8);
  }

  /** Zigzag is a bijection between i64 and u64. */
  lemma ZigzagBijection(n: int, u: nat)
    requires IsI64(n) && u < TWO_64
    ensures ZigzagEncode(n) < TWO_64 && ZigzagDecode(ZigzagEncode(n)) == n
    ensures IsI64(ZigzagDecode(u)) && ZigzagEncode(ZigzagDecode(u)) == u
  {
    ZigzagValue(n);
    ZigzagDecodeValue(ZigzagEncode(n));
    ZigzagDecodeValue(u);
    ZigzagValue(ZigzagDecode(u));
  }

  // ---------------------------------------------------------------- the runtime's loops

  /** One turn of either loop, in the operators the runtimes use. */
  lemma SevenBits(v: nat)
    ensures And(v, 0x7F) == v % 128 && Shr(v, 7) == v / 128
    ensures Or(v % 128, 0x80) == v % 128 + 128
    ensures v < 256 ==> (And(v, 0x80) == 0 <==> v < 128)
  {
    hide And, Or, Low, Shl, Shr;
    Pow2Seven(0);
    AndMask(v, 7);
    AndBit(v, 7);
    LowSeven(v);
    OrDisjoint(v % 128, 1, 7);
    ShlOne(7);
  }

  lemma LowTwo(v: nat, k: nat)
    ensures Low(v, k + 2) == 4 * Low(v / 4, k) + v % 4 && Shr(v, k + 2) == Shr(v / 4, k)
  {
    assert v / 2 / 2 == v / 4;
    assert 2 * (v / 2 % 2) + v % 2 == v % 4;
    assert Low(v, k + 2) == 2 * Low(v / 2, k + 1) + v % 2;
    assert Low(v / 2, k + 1) == 2 * Low(v / 4, k) + v / 2 % 2;
  }

  lemma LowOne(v: nat)
    ensures Low(v, 1) == v % 2 && Shr(v, 1) == v / 2
  {
  }

  lemma LowThree(v: nat)
    ensures Low(v, 3) == v % 8 && Shr(v, 3) == v / 8
  {
    hide Low, Shr;
    LowTwo(v, 1);
    LowOne(v / 4);
  }

  lemma LowFive(v: nat)
    ensures Low(v, 5) == v % 32 && Shr(v, 5) == v / 32
  {
    hide Low, Shr;
    LowTwo(v, 3);
    LowThree(v / 4);
  }

  lemma LowSeven(v: nat)
    ensures Low(v, 7) == v % 128 && Shr(v, 7) == v / 128
  {
    hide Low, Shr;
    LowTwo(v, 5);
    LowFive(v / 4);
  }

  /** The source's `value` is a u64; the loop itself depends on no width. */
  method EncodeLeb128(value: nat, buf: Buffer)
    modifies buf
    ensures buf.data == old(buf.data) + Leb(value)
  {
    hide And, Or, Shr;
    var v := value;
    while true
      invariant buf.data + Leb(v) == old(buf.data) + Leb(value)
      decreases v
    {
      SevenBits(v);
      var b := And(v, 0x7F);
      var w := Shr(v, 7);
      if w != 0 {
        b := Or(b, 0x80);
      }
      ghost var before := buf.data;
      buf.Push(b);
      if w == 0 {
        break;
      }
      assert before + Leb(v) == buf.data + Leb(w);
      v := w;
    }
  }

  lemma PowersStart()
    ensures Pow2(0) == 1
  {
  }

  /** One turn of the decoder. */
  lemma LebTurn(buf: bytes, shift: nat, acc: nat)
    ensures LebFrom(buf, shift, acc) ==
      if buf == [] then Err(UnexpectedEof, buf)
      else if shift >= 64 then Err(Leb128Overflow, buf[1..])
      else
        var next := acc + Low(Shl(buf[0] % 128, shift), 64);
        if buf[0] < 128 then Ok(next, buf[1..]) else LebFrom(buf[1..], shift + 7, next)
  {
    hide Low, Shl;
  }

  method DecodeLeb128(cur: Cursor) returns (r: Parse<nat>)
    modifies cur
    ensures r == DecodeLeb(old(cur.rest)) && cur.rest == r.rest
  {
    hide And, Or, Low, Shl, Pow2, LebFrom;
    var result: nat, shift: nat := 0, 0;
    assert Pow2(0) == 1 by { PowersStart(); }
    while true
      invariant result < Pow2(shift)
      invariant LebFrom(cur.rest, shift, result) == DecodeLeb(old(cur.rest))
      decreases |cur.rest|
    {
      LebTurn(cur.rest, shift, result);
      if cur.rest == [] {
        return Err(UnexpectedEof, cur.rest);
      }
      var b := cur.rest[0];
      cur.rest := cur.rest[1..];
      if shift >= 64 {
        return Err(Leb128Overflow, cur.rest);
      }
      SevenBits(b);
      ShiftedPart(result, b % 128, shift);
      result := Or(result, Low(Shl(And(b, 0x7F), shift), 64));
      if And(b, 0x80) == 0 {
        return Ok(result, cur.rest);
      }
      shift := shift + 7;
    }
  }
}
