/**
 Chunk headers. `split` says how the second byte is shared between size and sequence number:
 4 in protocol 0.6, 6 in protocol 0.7.
 */
module ChunkCodec {
  import opened Wire

  const MAX_SEQUENCE := 1024

  type Split = s: nat | s == 4 || s == 6 witness 4

  /** 1 << split; the size's low bits are the remainder by it. */
  function Unit(split: Split): nat {
    if split == 4 then 0x10 else 0x40
  }

  /** Sizes that the header can hold: 1024 for split 4, 4096 for split 6. */
  function SizeLimit(split: Split): nat {
    0x40 * Unit(split)
  }

  datatype Header = Header(vital: bool, resend: bool, size: int, seqNo: int)

  datatype Chunk = Chunk(header: Header, data: seq<byte>)

  /** Bitwise or. */
  function Or(a: nat, b: nat): nat {
    if a == 0 then b else if b == 0 then a
    else 2 * Or(a / 2, b / 2) + if a % 2 == 1 || b % 2 == 1 then 1 else 0
  }

  function HeaderSize(vital: bool): nat {
    if vital then 3 else 2
  }

  function FlagBits(h: Header): nat {
    (if h.vital then 1 else 0) + (if h.resend then 2 else 0)
  }

  /** (x & ^mask & 0xFF) where mask covers the low `split` bits. */
  function HighBits(x: int, split: Split): nat {
    x % 0x100 / Unit(split) * Unit(split)
  }

  function PackHeader(h: Header, split: Split): (s: seq<byte>)
    ensures |s| == HeaderSize(h.vital)
  {
    var b0 := FlagBits(h) * 0x40 + h.size / Unit(split) % 0x40;
    var b1 := h.size % Unit(split);
    if h.vital then [b0, b1 + HighBits(h.seqNo / 4, split), h.seqNo % 0x100] else [b0, b1]
  }

  function UnpackSeq(b1: byte, b2: byte, split: Split): nat {
    Or(HighBits(b1, split) * 4, b2)
  }

  function UnpackHeader(s: seq<byte>, split: Split): (r: Parsed<Header>)
    ensures r.Ok? ==> |s| >= HeaderSize(r.value.vital) && r.rest == s[HeaderSize(r.value.vital)..]
    ensures r.Ok? ==> 0 <= r.value.size < SizeLimit(split)
  {
    if |s| < 2 then Bad(Short)
    else
      var vital, resend := s[0] / 0x40 % 2 == 1, s[0] / 0x80 == 1;
      var size := s[0] % 0x40 * Unit(split) + s[1] % Unit(split);
      if !vital then Ok(Header(vital, resend, size, 0), s[2..])
      else if |s| < 3 then Bad(Short)
      else Ok(Header(vital, resend, size, UnpackSeq(s[1], s[2], split)), s[3..])
  }

  // ---------- the header round trip

  lemma OrDouble(a: nat, b: nat)
    ensures Or(2 * a, b) == 2 * Or(a, b / 2) + b % 2
  {
    if a != 0 && b != 0 {
      assert 2 * a / 2 == a;
    }
  }

  lemma {:induction false} OrZero(a: nat)
    ensures Or(a, 0) == a == Or(0, a)
  {
  }

  lemma OrFour(a: nat, b: nat)
    ensures Or(4 * a, b) == 4 * Or(a, b / 4) + b % 4
  {
    hide Or;
    OrDouble(2 * a, b);
    OrDouble(a, b / 2);
    assert b / 2 / 2 == b / 4;
  }

  lemma OrShift6(a: nat, b: nat)
    ensures Or(0x40 * a, b) == 0x40 * Or(a, b / 0x40) + b % 0x40
  {
    hide Or;
    OrFour(0x10 * a, b);
    OrFour(4 * a, b / 4);
    OrFour(a, b / 4 / 4);
    assert b / 4 / 4 / 4 == b / 0x40;
  }

  lemma OrOwnLowBit(a: nat)
    ensures Or(a, a % 2) == a
  {
    OrZero(a);
    OrZero(a / 2);
  }

  /** Bits that both operands share do no harm. */
  lemma OrOwnLowBits(a: nat)
    ensures Or(a, a % 4) == a
  {
    OrZero(a);
    OrOwnLowBit(a / 2);
    assert a % 4 / 2 == a / 2 % 2;
  }

  lemma QuarterOfParts(k: int, q: nat)
    ensures (1024 * k + q) / 4 == 0x100 * k + q / 4
  {
  }

  lemma LowByteOfParts(k: int, r: nat)
    requires r < 0x100
    ensures (0x100 * k + r) % 0x100 == r
  {
  }

  lemma SeqBits(seqNo: int)
    ensures var q := seqNo % 1024;
      seqNo / 4 % 0x100 == q / 4 && seqNo % 0x100 == q % 0x100
  {
    var k, q := seqNo / 1024, seqNo % 1024;
    QuarterOfParts(k, q);
    LowByteOfParts(k, q / 4);
    LowByteOfParts(4 * k + q / 0x100, q % 0x100);
  }

  lemma HighBitsOfSeq(seqNo: int, split: Split)
    ensures HighBits(seqNo / 4, split) == Unit(split) * (seqNo % 1024 / (4 * Unit(split)))
  {
    SeqBits(seqNo);
    var q := seqNo % 1024;
    assert q / 4 / 0x10 == q / 0x40 && q / 4 / 0x40 == q / 0x100;
  }

  lemma HighBitsOfByte(low: nat, k: nat, split: Split)
    requires low < Unit(split) && k < 0x100 / Unit(split)
    ensures low + Unit(split) * k < 0x100 && (low + Unit(split) * k) % Unit(split) == low
    ensures HighBits(low + Unit(split) * k, split) == Unit(split) * k
  {
  }

  lemma OrHalves(q: nat)
    requires q < 1024
    ensures Or(0x40 * (q / 0x40), q % 0x100) == q
    ensures Or(0x100 * (q / 0x100), q % 0x100) == q
  {
    hide Or;
    var low, h := q % 0x40, q / 0x40;
    OrShift6(h, q % 0x100);
    assert q % 0x100 / 0x40 == h % 4 && q % 0x100 % 0x40 == low;
    OrOwnLowBits(h);
    OrShift6(4 * (h / 4), q % 0x100);
    OrFour(h / 4, h % 4);
    OrZero(h / 4);
    assert q / 0x100 == h / 4 && q == 0x40 * h + low;
  }

  /** What comes back is the sequence number modulo 1024, under either split. */
  lemma SeqRoundTrip(seqNo: int, low: nat, split: Split)
    requires low < Unit(split)
    ensures low + HighBits(seqNo / 4, split) < 0x100 && (low + HighBits(seqNo / 4, split)) % Unit(split) == low
    ensures UnpackSeq(low + HighBits(seqNo / 4, split), seqNo % 0x100, split) == seqNo % 1024
  {
    hide Or, HighBits;
    var q := seqNo % 1024;
    SeqBits(seqNo);
    HighBitsOfSeq(seqNo, split);
    HighBitsOfByte(low, q / (4 * Unit(split)), split);
    OrHalves(q);
  }

  function Canonical(h: Header, split: Split): Header {
    Header(h.vital, h.resend, h.size % SizeLimit(split), if h.vital then h.seqNo % 1024 else 0)
  }

  /** The header that comes back has its size and sequence number reduced to what the bits can hold. */
  lemma HeaderRoundTrip(h: Header, split: Split, rest: seq<byte>)
    ensures UnpackHeader(PackHeader(h, split) + rest, split) == Ok(Canonical(h, split), rest)
  {
    hide Or, HighBits, UnpackSeq;
    var s := PackHeader(h, split) + rest;
    SizeBits(h.size, split);
    SeqRoundTrip(h.seqNo, h.size % Unit(split), split);
    FlagsRoundTrip(h, split);
    if h.vital {
      assert s[3..] == rest;
    } else {
      assert s[2..] == rest;
    }
  }

  lemma FlagsRoundTrip(h: Header, split: Split)
    ensures var b0 := FlagBits(h) * 0x40 + h.size / Unit(split) % 0x40;
      0 <= b0 < 0x100 && (b0 / 0x40 % 2 == 1 <==> h.vital) && (b0 / 0x80 == 1 <==> h.resend)
      && b0 % 0x40 == h.size / Unit(split) % 0x40
  {
  }

  lemma SizeBits(size: int, split: Split)
    ensures size / Unit(split) % 0x40 * Unit(split) + size % Unit(split) == size % SizeLimit(split)
  {
    if split == 4 {
      SizeBits4(size);
    } else {
      SizeBits6(size);
    }
  }

  lemma SizeBits4(size: int)
    ensures size / 0x10 % 0x40 * 0x10 + size % 0x10 == size % 0x400
  {
  }

  lemma SizeBits6(size: int)
    ensures size / 0x40 % 0x40 * 0x40 + size % 0x40 == size % 0x1000
  {
  }
}
