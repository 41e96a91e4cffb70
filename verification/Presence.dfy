/** The presence bitfield of structs with optional fields: eight flags a byte, low bit first. */
module Presence {
  import opened Wire
  import opened Bits

  function Pack(bits: seq<bool>): (r: nat)
    ensures r < Pow2(|bits|)
  {
    if bits == [] then 0 else (if bits[0] then 1 else 0) + 2 * Pack(bits[1..])
  }

  function PresenceBits(bits: seq<bool>): (r: bytes)
    ensures |r| == (|bits| + 7) / 8
  {
    if bits == [] then []
    else
      var n := if |bits| < 8 then |bits| else 8;
      PackedByte(bits[..n]);
      [Pack(bits[..n])] + PresenceBits(bits[n..])
  }

  lemma PackedByte(bits: seq<bool>)
    requires |bits| <= 8
    ensures Pack(bits) < 256
  {
    Pow2Monotone(|bits|, 8);
    Pow2Of8();
  }

  function BitAt(buf: bytes, i: nat): bool
    requires i / 8 < |buf|
  {
    And(Shr(buf[i / 8], i % 8), 1) == 1
  }

  function DecodePresence(count: nat, buf: bytes): (r: Parse<seq<bool>>)
    ensures Suffix(r.rest, buf)
    ensures r.Ok? ==> |r.value| == count && (count > 0 ==> |r.rest| < |buf|)
  {
    var n := (count + 7) / 8;
    if |buf| < n then Err(UnexpectedEof, buf)
    else Ok(BitsOf(count, buf), buf[n..])
  }

  function BitsOf(count: nat, buf: bytes): (r: seq<bool>)
    requires (count + 7) / 8 <= |buf|
    ensures |r| == count && forall i :: 0 <= i < count ==> r[i] == BitAt(buf, i)
  {
    if count == 0 then [] else BitsOf(count - 1, buf) + [BitAt(buf, count - 1)]
  }

  lemma {:induction false} PackBit(bits: seq<bool>, i: nat)
    requires i < |bits|
    ensures And(Shr(Pack(bits), i), 1) == 1 <==> bits[i]
  {
    hide And;
    if i > 0 {
      PackBit(bits[1..], i - 1);
      assert Pack(bits) / 2 == Pack(bits[1..]);
    } else {
      LowBit(Pack(bits));
    }
  }

  lemma {:induction false} PresenceAt(bits: seq<bool>, rest: bytes, i: nat)
    requires i < |bits|
    ensures BitAt(PresenceBits(bits) + rest, i) == bits[i]
    decreases |bits|
  {
    var n := if |bits| < 8 then |bits| else 8;
    var all := PresenceBits(bits) + rest;
    if i < 8 {
      PackBit(bits[..n], i);
    } else {
      PresenceAt(bits[8..], rest, i - 8);
      assert all[i / 8] == (PresenceBits(bits[8..]) + rest)[(i - 8) / 8];
    }
  }

  /** Any number of flags survives the round trip. */
  lemma PresenceRoundTrip(bits: seq<bool>, rest: bytes)
    ensures DecodePresence(|bits|, PresenceBits(bits) + rest) == Ok(bits, rest)
  {
    hide PresenceBits, BitAt, BitsOf;
    var all := PresenceBits(bits) + rest;
    forall i | 0 <= i < |bits| ensures BitAt(all, i) == bits[i] {
      PresenceAt(bits, rest, i);
    }
    assert BitsOf(|bits|, all) == bits;
    assert all[(|bits| + 7) / 8..] == rest;
  }

  lemma {:induction false} PackAppend(bits: seq<bool>, b: bool)
    ensures Pack(bits + [b]) == Pack(bits) + (if b then Pow2(|bits|) else 0)
  {
    if bits != [] {
      assert (bits + [b])[1..] == bits[1..] + [b];
      PackAppend(bits[1..], b);
    }
  }

  /** Setting bit `i` of the byte packed so far. */
  lemma PackStep(bits: seq<bool>, i: nat)
    requires i < |bits|
    ensures Pack(bits[..i + 1]) == if bits[i] then Or(Pack(bits[..i]), Shl(1, i)) else Pack(bits[..i])
  {
    assert bits[..i + 1] == bits[..i] + [bits[i]];
    PackAppend(bits[..i], bits[i]);
    OrDisjoint(Pack(bits[..i]), 1, i);
    ShlOne(i);
  }

  lemma PresenceStep(bits: seq<bool>, k: nat)
    requires 8 * k < |bits|
    ensures var left := bits[8 * k..];
      Pack(left[..Min(8, |left|)]) < 256 &&
      PresenceBits(left) == [Pack(left[..Min(8, |left|)])] + PresenceBits(bits[Min(8 * (k + 1), |bits|)..])
  {
    var left := bits[8 * k..];
    PackedByte(left[..Min(8, |left|)]);
    assert left[Min(8, |left|)..] == bits[Min(8 * (k + 1), |bits|)..];
  }

  lemma PresenceEnd()
    ensures PresenceBits([]) == []
  {
  }

  lemma PackEnd()
    ensures Pack([]) == 0
  {
  }

  method EncodePresenceBits(bits: seq<bool>, buf: Buffer)
    modifies buf
    ensures buf.data == old(buf.data) + PresenceBits(bits)
  {
    hide Pack, Or, Shl, PresenceBits;
    var numBytes := (|bits| + 7) / 8;
    assert bits[0..] == bits;
    PresenceEnd();
    PackEnd();
    for byteIdx := 0 to numBytes
      invariant buf.data + PresenceBits(bits[Min(8 * byteIdx, |bits|)..]) == old(buf.data) + PresenceBits(bits)
    {
      ghost var left, before := bits[8 * byteIdx..], buf.data;
      PresenceStep(bits, byteIdx);
      var b := 0;
      for bitIdx := 0 to 8
        invariant b == Pack(left[..Min(bitIdx, |left|)]) && buf.data == before
      {
        var idx := byteIdx * 8 + bitIdx;
        if idx < |bits| {
          PackStep(left, bitIdx);
          if bits[idx] {
            b := Or(b, Shl(1, bitIdx));
          }
        }
      }
      buf.Push(b);
      assert before + PresenceBits(left) == buf.data + PresenceBits(bits[Min(8 * (byteIdx + 1), |bits|)..]);
    }
  }

  method DecodePresenceBits(count: nat, cur: Cursor) returns (r: Parse<seq<bool>>)
    modifies cur
    ensures r == DecodePresence(count, old(cur.rest)) && cur.rest == r.rest
  {
    var numBytes := (count + 7) / 8;
    if |cur.rest| < numBytes {
      return Err(UnexpectedEof, cur.rest);
    }
    var result := [];
    for i := 0 to count
      invariant |result| == i && forall j :: 0 <= j < i ==> result[j] == BitAt(cur.rest, j)
      invariant cur.rest == old(cur.rest)
    {
      var present := And(Shr(cur.rest[i / 8], i % 8), 1) == 1;
      result := result + [present];
    }
    assert result == BitsOf(count, cur.rest);
    cur.rest := cur.rest[numBytes..];
    return Ok(result, cur.rest);
  }
}
