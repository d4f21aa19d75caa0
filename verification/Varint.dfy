/**
 The variable-length integers of the protocol. The first byte holds six data bits, the sign in
 bit 6 and a continuation flag in bit 7; up to four more bytes hold seven data bits and a
 continuation flag, except that the fifth byte may hold four data bits only.
 */
module Varint {
  import opened Wire

  /** Magnitudes that fit in the continuation bytes from the i-th on. */
  function TailLimit(i: nat): nat {
    if i == 0 then 0x200_0000 else if i == 1 then 0x4_0000 else if i == 2 then 0x800 else 0x10
  }

  function DecodeTail(s: seq<byte>, i: nat): (r: Parsed<nat>)
    requires i <= 3
    ensures r.Ok? ==> r.value < TailLimit(i)
    ensures r.Ok? ==> |r.rest| < |s|
    decreases 3 - i
  {
    if s == [] then
      Bad(Short)
    else if i == 3 && s[0] > 0x0F then
      Bad(BadVarint)
    else if s[0] < 0x80 then
      Ok(s[0], s[1..])
    else
      var (v, rest) :- DecodeTail(s[1..], i + 1);
      Ok(s[0] - 0x80 + 0x80 * v, rest)
  }

  /** `value ^ -sign`: the complement of the magnitude when the sign bit is set. */
  function Signed(first: byte, magnitude: nat): int {
    if first % 0x80 >= 0x40 then -1 - magnitude else magnitude
  }

  function Decode(s: seq<byte>): (r: Parsed<int>)
    ensures r.Ok? ==> IsInt32(r.value) && |r.rest| < |s|
  {
    if s == [] then
      Bad(Short)
    else if s[0] < 0x80 then
      Ok(Signed(s[0], s[0] % 0x40), s[1..])
    else
      var (v, rest) :- DecodeTail(s[1..], 0);
      Ok(Signed(s[0], s[0] % 0x40 + 0x40 * v), rest)
  }

  function EncodeTail(m: nat): (s: seq<byte>)
    ensures s != []
  {
    if m < 0x80 then [m] else [0x80 + m % 0x80] + EncodeTail(m / 0x80)
  }

  function Encode(v: int): (s: seq<byte>)
    ensures s != []
  {
    if v < 0 then EncodeMagnitude(0x40, -1 - v) else EncodeMagnitude(0, v)
  }

  function EncodeMagnitude(sign: byte, m: nat): (s: seq<byte>)
    requires sign == 0 || sign == 0x40
    ensures s != []
  {
    if m < 0x40 then [sign + m] else [0x80 + sign + m % 0x40] + EncodeTail(m / 0x40)
  }

  function Clamp(v: int): (r: int)
    ensures IsInt32(r) && (r == v <==> IsInt32(v))
  {
    if v > MAX_INT32 then MAX_INT32 else if v < MIN_INT32 then MIN_INT32 else v
  }

  /** packer.PackInt: values outside the 32-bit range are clamped into it. */
  function PackInt(v: int): (s: seq<byte>)
    ensures s != []
  {
    Encode(Clamp(v))
  }

  lemma DecodeNothing()
    ensures Decode([]) == Bad(Short)
  {
  }

  lemma DecodeTailOfParts(low: nat, high: nat, i: nat, tail: seq<byte>, rest: seq<byte>)
    requires i <= 2 && low < 0x80
    requires DecodeTail(tail + rest, i + 1) == Ok(high, rest)
    ensures DecodeTail([0x80 + low] + tail + rest, i) == Ok(low + 0x80 * high, rest)
  {
    assert ([0x80 + low] + tail + rest)[1..] == tail + rest;
  }

  lemma {:induction false} DecodeTailOfEncodeTail(m: nat, i: nat, rest: seq<byte>)
    requires i <= 3 && m < TailLimit(i)
    ensures DecodeTail(EncodeTail(m) + rest, i) == Ok(m, rest)
    decreases m
  {
    if m < 0x80 {
      assert ([m] + rest)[1..] == rest;
    } else {
      DecodeTailOfEncodeTail(m / 0x80, i + 1, rest);
      DecodeTailOfParts(m % 0x80, m / 0x80, i, EncodeTail(m / 0x80), rest);
    }
  }

  /** The fields of a first byte can be read back. */
  lemma FirstByte(sign: byte, low: nat)
    requires (sign == 0 || sign == 0x40) && low < 0x40
    ensures (0x80 + sign + low) % 0x40 == (sign + low) % 0x40 == low
    ensures (0x80 + sign + low) % 0x80 == sign + low
  {
  }

  lemma DecodeOfParts(sign: byte, low: nat, high: nat, tail: seq<byte>, rest: seq<byte>)
    requires (sign == 0 || sign == 0x40) && low < 0x40
    requires DecodeTail(tail + rest, 0) == Ok(high, rest)
    ensures Decode([0x80 + sign + low] + tail + rest) == Ok(Signed(sign, low + 0x40 * high), rest)
  {
    hide DecodeTail;
    FirstByte(sign, low);
    var s := [0x80 + sign + low] + tail + rest;
    assert s[0] == 0x80 + sign + low && s[1..] == tail + rest;
  }

  lemma DecodeOfOneByte(sign: byte, low: nat, rest: seq<byte>)
    requires (sign == 0 || sign == 0x40) && low < 0x40
    ensures Decode([sign + low] + rest) == Ok(Signed(sign, low), rest)
  {
    hide DecodeTail;
    FirstByte(sign, low);
    var s := [sign + low] + rest;
    assert s[0] == sign + low && s[1..] == rest;
  }

  lemma DecodeOfEncodeMagnitude(sign: byte, m: nat, rest: seq<byte>)
    requires (sign == 0 || sign == 0x40) && m <= MAX_INT32
    ensures Decode(EncodeMagnitude(sign, m) + rest) == Ok(Signed(sign, m), rest)
  {
    hide Decode, DecodeTail, EncodeTail, Signed;
    if m < 0x40 {
      DecodeOfOneByte(sign, m, rest);
    } else {
      DecodeTailOfEncodeTail(m / 0x40, 0, rest);
      DecodeOfParts(sign, m % 0x40, m / 0x40, EncodeTail(m / 0x40), rest);
    }
  }

  /** Decoding inverts encoding for every 32-bit value, whatever follows it in the stream. */
  lemma DecodeOfEncode(v: int, rest: seq<byte>)
    requires IsInt32(v)
    ensures Decode(Encode(v) + rest) == Ok(v, rest)
  {
    if v < 0 {
      DecodeOfEncodeMagnitude(0x40, -1 - v, rest);
    } else {
      DecodeOfEncodeMagnitude(0, v, rest);
    }
  }

  lemma DecodeOfPack(v: int, rest: seq<byte>)
    ensures Decode(PackInt(v) + rest) == Ok(Clamp(v), rest)
  {
    DecodeOfEncode(Clamp(v), rest);
  }

  /** No zero padding: a continuation byte sequence does not end in a zero byte. */
  predicate Minimal(c: seq<byte>)
    requires c != []
  {
    |c| == 1 || c[|c| - 1] != 0
  }

  lemma {:induction false} EncodeTailOfDecodeTail(s: seq<byte>, i: nat) returns (c: seq<byte>)
    requires i <= 3 && DecodeTail(s, i).Ok?
    ensures c != [] && s == c + DecodeTail(s, i).rest
    ensures EncodeTail(DecodeTail(s, i).value) == c <==> Minimal(c)
    ensures DecodeTail(s, i).value == 0 ==> c[|c| - 1] == 0
    decreases 3 - i
  {
    var v := DecodeTail(s, i).value;
    if s[0] < 0x80 {
      c := [s[0]];
    } else {
      var c' := EncodeTailOfDecodeTail(s[1..], i + 1);
      var v' := DecodeTail(s[1..], i + 1).value;
      c := [s[0]] + c';
      assert c[|c| - 1] == c'[|c'| - 1];
      if v' != 0 {
        assert v == s[0] - 0x80 + 0x80 * v';
        assert EncodeTail(v) == [s[0]] + EncodeTail(v');
        assert EncodeTail(v)[1..] == EncodeTail(v') && c[1..] == c';
      }
    }
  }

  /**
   What a decode consumes, and when encoding gives it back: re-encoding a decoded value
   reproduces the bytes exactly when they carry no zero padding.
   */
  lemma EncodeOfDecode(s: seq<byte>) returns (c: seq<byte>)
    requires Decode(s).Ok?
    ensures c != [] && s == c + Decode(s).rest
    ensures Encode(Decode(s).value) == c <==> Minimal(c)
  {
    hide Encode, EncodeTail, Signed, Minimal;
    if s[0] < 0x80 {
      c := [s[0]];
      EncodeOfOneByte(s[0]);
    } else {
      var tail := EncodeTailOfDecodeTail(s[1..], 0);
      c := [s[0]] + tail;
      LongEncodeOfDecode(s[0], DecodeTail(s[1..], 0).value, tail);
    }
  }

  lemma EncodeOfOneByte(first: byte)
    requires first < 0x80
    ensures Encode(Signed(first, first % 0x40)) == [first] && Minimal([first])
  {
  }

  lemma LongEncodeOfDecode(first: byte, v: nat, tail: seq<byte>)
    requires first >= 0x80 && tail != [] && (EncodeTail(v) == tail <==> Minimal(tail))
    requires v == 0 ==> tail[|tail| - 1] == 0
    ensures Encode(Signed(first, first % 0x40 + 0x40 * v)) == [first] + tail <==> Minimal([first] + tail)
  {
    hide Encode, EncodeTail, Signed;
    EncodeOfSigned(first, v);
    SamePrefix(first, EncodeTail(v), tail);
    EncodeTailIsZero(v);
    assert |tail| == 1 && tail[0] == 0 ==> tail == [0];
  }

  lemma EncodeTailIsZero(v: nat)
    ensures EncodeTail(v) == [0] <==> v == 0
  {
  }

  lemma SamePrefix(first: byte, a: seq<byte>, b: seq<byte>)
    requires a != [] && b != []
    ensures [first] + a == [first] + b <==> a == b
    ensures Minimal([first] + b) <==> b[|b| - 1] != 0
  {
    assert ([first] + a)[1..] == a && ([first] + b)[1..] == b;
  }

  lemma Join(low: nat, high: nat)
    requires low < 0x40
    ensures (low + 0x40 * high) % 0x40 == low && (low + 0x40 * high) / 0x40 == high
  {
  }

  lemma EncodeMagnitudeOfParts(sign: byte, low: nat, high: nat, m: nat)
    requires (sign == 0 || sign == 0x40) && low < 0x40 && high != 0
    requires m % 0x40 == low && m / 0x40 == high
    ensures EncodeMagnitude(sign, m) == [0x80 + sign + low] + EncodeTail(high)
  {
    assert m >= 0x40;
  }

  lemma SplitFirst(first: byte) returns (sign: byte, low: nat)
    requires first >= 0x80
    ensures low == first % 0x40 && first == 0x80 + sign + low
    ensures sign == if first % 0x80 >= 0x40 then 0x40 else 0
  {
    sign, low := if first % 0x80 >= 0x40 then 0x40 else 0, first % 0x40;
  }

  lemma EncodeOfSign(first: byte, m: nat, sign: byte)
    requires first >= 0x80 && sign == (if first % 0x80 >= 0x40 then 0x40 else 0)
    ensures Encode(Signed(first, m)) == EncodeMagnitude(sign, m)
  {
    hide EncodeMagnitude;
  }

  lemma EncodeOfSigned(first: byte, v: nat)
    requires first >= 0x80
    ensures var e := Encode(Signed(first, first % 0x40 + 0x40 * v));
      if v != 0 then e == [first] + EncodeTail(v) else |e| == 1
  {
    hide Encode, Signed, EncodeTail;
    var sign, low := SplitFirst(first);
    var m := low + 0x40 * v;
    EncodeOfSign(first, m, sign);
    if v != 0 {
      Join(low, v);
      EncodeMagnitudeOfParts(sign, low, v, m);
    }
  }
}
