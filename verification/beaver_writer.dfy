/*
 * The H.264 SEI NAL unit writer (src/beaver_writer.c): bits are packed
 * MSB-first into a 32-bit cache that goes out four bytes at a time, with
 * emulation prevention (section 7.4.1 of ITU-T H.264) applied to the bytes as
 * they leave the cache. WriteSeiNalu builds an optional Annex B start code,
 * the SEI NAL header, one user-data-unregistered SEI message (section
 * 7.3.2.3.1) and the rbsp_trailing_bits (section 7.3.2.11).
 */
module BeaverWriter {
  import opened CInt

  const NALU_START_CODE: seq<byte> := [0, 0, 0, 1]
  const NALU_TYPE_SEI: byte := 6
  const SEI_PAYLOAD_TYPE_USER_DATA_UNREGISTERED: nat := 5
  const EMULATION_PREVENTION_BYTE: byte := 3
  /** rbsp_stop_one_bit followed by seven rbsp_alignment_zero_bits. */
  const RBSP_TRAILING_BYTE: byte := 0x80

  /**
   * One byte through writeBits' emulation prevention: zc counts the 0x00
   * bytes just emitted; after two of them a byte <= 0x03 is preceded by an
   * emulation_prevention_three_byte.
   */
  function EscapeByte(zc: nat, b: byte): (r: (seq<byte>, nat))
  {
    if zc == 2 && b <= 3 then ([EMULATION_PREVENTION_BYTE, b], if b == 0 then 1 else 0)
    else ([b], if b == 0 then zc + 1 else 0)
  }

  /** A byte string through emulation prevention, and the zero count after it. */
  function Escape(zc: nat, s: seq<byte>): (r: (seq<byte>, nat))
    ensures zc <= 2 ==> r.1 <= 2
    ensures |s| <= |r.0|
    decreases |s|
  {
    if s == [] then ([], zc)
    else
      var h := EscapeByte(zc, s[0]);
      var t := Escape(h.1, s[1..]);
      (h.0 + t.0, t.1)
  }

  lemma {:induction false} EscapeAppend(zc: nat, a: seq<byte>, b: seq<byte>)
    ensures Escape(zc, a + b) ==
      (Escape(zc, a).0 + Escape(Escape(zc, a).1, b).0, Escape(Escape(zc, a).1, b).1)
    decreases |a|
  {
    if a == [] {
      assert a + b == b && Escape(zc, a) == ([], zc);
      assert [] + Escape(zc, b).0 == Escape(zc, b).0;
    } else {
      assert (a + b)[0] == a[0] && (a + b)[1..] == a[1..] + b;
      var h := EscapeByte(zc, a[0]);
      EscapeAppend(h.1, a[1..], b);
      var ta := Escape(h.1, a[1..]);
      var tb := Escape(ta.1, b);
      assert Escape(zc, a) == (h.0 + ta.0, ta.1);
      assert Escape(zc, a + b) == (h.0 + (ta.0 + tb.0), tb.1);
      assert h.0 + (ta.0 + tb.0) == (h.0 + ta.0) + tb.0;
    }
  }

  /**
   * The reading side: an 0x03 that follows two 0x00 bytes is an
   * emulation_prevention_three_byte and is dropped.
   */
  function Unescape(zc: nat, s: seq<byte>): seq<byte>
    decreases |s|
  {
    if s == [] then []
    else if zc == 2 && s[0] == EMULATION_PREVENTION_BYTE then Unescape(0, s[1..])
    else [s[0]] + Unescape(if s[0] == 0 then zc + 1 else 0, s[1..])
  }

  /** Removing the emulation prevention bytes gives the original bytes back. */
  lemma {:induction false} UnescapeEscape(zc: nat, s: seq<byte>)
    ensures Unescape(zc, Escape(zc, s).0) == s
    decreases |s|
  {
    if s != [] {
      var h := EscapeByte(zc, s[0]);
      var t := Escape(h.1, s[1..]);
      UnescapeEscape(h.1, s[1..]);
      if zc == 2 && s[0] <= 3 {
        assert (h.0 + t.0)[1..] == [s[0]] + t.0;
        assert ([s[0]] + t.0)[1..] == t.0;
      } else {
        assert (h.0 + t.0)[1..] == t.0;
      }
    }
  }

  /** The number of 0x00 bytes that end s. */
  function TrailingZeros(s: seq<byte>): nat
    decreases |s|
  {
    if s == [] || s[|s| - 1] != 0 then 0 else 1 + TrailingZeros(s[..|s| - 1])
  }

  /** No 0x000000, 0x000001 or 0x000002 at any byte position. */
  predicate NoStartCodeEmulation(s: seq<byte>)
  {
    forall i :: 0 <= i < |s| - 2 ==> !(s[i] == 0 && s[i + 1] == 0 && s[i + 2] <= 2)
  }

  lemma TrailingZerosAppend(p: seq<byte>, b: byte)
    ensures TrailingZeros(p + [b]) == if b == 0 then TrailingZeros(p) + 1 else 0
  {
    assert (p + [b])[..|p + [b]| - 1] == p;
  }

  lemma AppendOne(p: seq<byte>, b: byte, zc: nat)
    requires NoStartCodeEmulation(p) && TrailingZeros(p) == zc && zc <= 2
    requires !(zc == 2 && b <= 2)
    ensures NoStartCodeEmulation(p + [b])
    ensures TrailingZeros(p + [b]) == if b == 0 then zc + 1 else 0
  {
    TrailingZerosAppend(p, b);
    var q := p + [b];
    forall i | 0 <= i < |q| - 2 ensures !(q[i] == 0 && q[i + 1] == 0 && q[i + 2] <= 2) {
      if i + 2 < |q| - 1 {
        assert q[i] == p[i] && q[i + 1] == p[i + 1] && q[i + 2] == p[i + 2];
      } else if q[i] == 0 && q[i + 1] == 0 {
        assert p[|p| - 1] == 0 && p[|p| - 2] == 0;
        ZerosCount(p);
      }
    }
  }

  /** A string ending in two zeros has at least two trailing zeros. */
  lemma ZerosCount(p: seq<byte>)
    requires |p| >= 2 && p[|p| - 1] == 0 && p[|p| - 2] == 0
    ensures TrailingZeros(p) >= 2
  {
    assert p[..|p| - 1][|p| - 2] == p[|p| - 2];
  }

  /** One escaped byte keeps the output free of start-code prefixes and the count exact. */
  lemma EscapeByteNoStartCode(p: seq<byte>, zc: nat, b: byte)
    requires NoStartCodeEmulation(p) && TrailingZeros(p) == zc && zc <= 2
    ensures NoStartCodeEmulation(p + EscapeByte(zc, b).0)
    ensures TrailingZeros(p + EscapeByte(zc, b).0) == EscapeByte(zc, b).1
  {
    if zc == 2 && b <= 3 {
      AppendOne(p, EMULATION_PREVENTION_BYTE, zc);
      AppendOne(p + [EMULATION_PREVENTION_BYTE], b, 0);
      assert p + [EMULATION_PREVENTION_BYTE] + [b] == p + EscapeByte(zc, b).0;
    } else {
      AppendOne(p, b, zc);
    }
  }

  /**
   * Emulation prevention does what section 7.4.1 asks of it: appended to
   * output free of 0x000000/01/02 whose trailing zeros the count tracks,
   * the escaped bytes leave it free of them, and the count stays exact.
   */
  lemma {:induction false} EscapeNoStartCode(p: seq<byte>, zc: nat, s: seq<byte>)
    requires NoStartCodeEmulation(p) && TrailingZeros(p) == zc && zc <= 2
    ensures NoStartCodeEmulation(p + Escape(zc, s).0)
    ensures TrailingZeros(p + Escape(zc, s).0) == Escape(zc, s).1
    decreases |s|
  {
    if s != [] {
      var h := EscapeByte(zc, s[0]);
      var t := Escape(h.1, s[1..]);
      EscapeByteNoStartCode(p, zc, s[0]);
      EscapeNoStartCode(p + h.0, h.1, s[1..]);
      assert p + Escape(zc, s).0 == (p + h.0) + t.0;
    } else {
      assert p + Escape(zc, s).0 == p;
    }
  }

  /**
   * bitstreamByteAlign's own copy of the step, as written: its `else if`
   * leaves the count at 0 when the byte after an inserted 0x03 is 0x00.
   */
  function EscapeByteInAlign(zc: nat, b: byte): (r: (seq<byte>, nat))
  {
    if zc == 2 && b <= 3 then ([EMULATION_PREVENTION_BYTE, b], 0)
    else ([b], if b == 0 then zc + 1 else 0)
  }

  function EscapeInAlign(zc: nat, s: seq<byte>): (r: (seq<byte>, nat))
    decreases |s|
  {
    if s == [] then ([], zc)
    else
      var h := EscapeByteInAlign(zc, s[0]);
      var t := EscapeInAlign(h.1, s[1..]);
      (h.0 + t.0, t.1)
  }

  /**
   * Three zero bytes flushed by the align loop after two emitted zero bytes
   * come out as 03 00 00 00: a 0x000000 the writeBits step would have broken.
   */
  lemma EscapeInAlignEmulatesStartCode()
    ensures EscapeInAlign(2, [0, 0, 0]).0 == [3, 0, 0, 0]
    ensures !NoStartCodeEmulation([0, 0] + EscapeInAlign(2, [0, 0, 0]).0)
    ensures Escape(2, [0, 0, 0]).0 == [3, 0, 0, 3, 0]
  {
    var s: seq<byte> := [0, 0] + EscapeInAlign(2, [0, 0, 0]).0;
    assert s[3] == 0 && s[4] == 0 && s[5] == 0;
  }

  // ---------------------------------------------------------------------------
  // SEI payloadType / payloadSize coding (section 7.3.2.3.1 of ITU-T H.264)

  /** One 0xFF byte per whole 255, then the remainder (< 255). */
  function FFCoded(v: nat): (r: seq<byte>)
    ensures |r| == v / 255 + 1
    decreases v
  {
    if v >= 255 then [0xFF] + FFCoded(v - 255) else [v]
  }

  /** The loops of WriteSeiNalu as written: `> 255`, so 255 is coded as a lone 0xFF. */
  function FFCodedAsWritten(v: nat): (r: seq<byte>)
    decreases v
  {
    if v > 255 then [0xFF] + FFCodedAsWritten(v - 255) else [v]
  }

  /** The reading side: 255 per 0xFF byte plus the first other byte, and the bytes used. */
  function ReadFFCoded(s: seq<byte>): (r: Option<(nat, nat)>)
    ensures r.Some? ==> 1 <= r.value.1 <= |s|
    decreases |s|
  {
    if s == [] then None
    else if s[0] == 0xFF then
      match ReadFFCoded(s[1..])
      case None => None
      case Some(p) => Some((p.0 + 255, p.1 + 1))
    else Some((s[0] as nat, 1))
  }

  lemma {:induction false} ReadFFCodedInverse(v: nat, rest: seq<byte>)
    ensures ReadFFCoded(FFCoded(v) + rest) == Some((v, |FFCoded(v)|))
    decreases v
  {
    if v >= 255 {
      assert (FFCoded(v) + rest)[1..] == FFCoded(v - 255) + rest;
      ReadFFCodedInverse(v - 255, rest);
    }
  }

  /** The as-written coding differs exactly on the positive multiples of 255. */
  lemma {:induction false} FFCodedAsWrittenDiffers(v: nat)
    ensures FFCodedAsWritten(v) != FFCoded(v) <==> v > 0 && v % 255 == 0
    decreases v
  {
    if v > 255 {
      FFCodedAsWrittenDiffers(v - 255);
      assert FFCodedAsWritten(v)[1..] == FFCodedAsWritten(v - 255);
      assert FFCoded(v)[1..] == FFCoded(v - 255);
    } else if v == 255 {
      assert FFCoded(v) == [0xFF, 0];
    }
  }

  /** A 255-byte payload: the reader takes its first byte as part of the size. */
  lemma FFCodedAsWrittenMisread(payload: seq<byte>)
    requires |payload| == 255 && payload[0] != 0xFF
    ensures var r := ReadFFCoded(FFCodedAsWritten(255) + payload);
      r.Some? && r.value.0 == 255 + payload[0] as int && r.value.1 == 2
  {
    var s := FFCodedAsWritten(255) + payload;
    assert s[1..] == payload;
  }

  // ---------------------------------------------------------------------------
  // The SEI NAL unit

  /** A user data unregistered SEI message: its payloadType, its payloadSize, the data. */
  function UserDataMessage(ud: seq<byte>): (r: seq<byte>)
    ensures |r| > |ud|
  {
    FFCoded(SEI_PAYLOAD_TYPE_USER_DATA_UNREGISTERED) + FFCoded(|ud|) + ud
  }

  /** The SEI message: payloadType 5, payloadSize, then the user data verbatim. */
  function SeiMessage(userData: Option<seq<byte>>): seq<byte>
  {
    if userData.Some? && |userData.value| >= 16 then
      UserDataMessage(userData.value)
    else []
  }

  /** The NAL unit before emulation prevention: header, SEI message, trailing bits. */
  function NaluBytes(userData: Option<seq<byte>>): seq<byte>
  {
    [NALU_TYPE_SEI] + SeiMessage(userData) + [RBSP_TRAILING_BYTE]
  }

  /** What WriteSeiNalu leaves in the output buffer. */
  function SeiNalu(naluPrefix: bool, userData: Option<seq<byte>>): seq<byte>
  {
    (if naluPrefix then NALU_START_CODE else []) + Escape(0, NaluBytes(userData)).0
  }

  /**
   * The reading side of a SEI message as WriteSeiNalu lays it out: None for
   * anything else; Some(None) for an empty one; otherwise the user data of its
   * one user-data-unregistered message.
   */
  function ParseSeiMessage(msg: seq<byte>): Option<Option<seq<byte>>>
  {
    if msg == [] then Some(None)
    else match ReadFFCoded(msg)
      case None => None
      case Some(t) =>
        if t.0 != SEI_PAYLOAD_TYPE_USER_DATA_UNREGISTERED then None
        else match ReadFFCoded(msg[t.1..])
          case None => None
          case Some(z) =>
            if |msg| - t.1 - z.1 == z.0 then Some(Some(msg[t.1 + z.1..])) else None
  }

  /** The reading side of a whole SEI NAL unit: start code, unescaping, header, trailing bits. */
  function ParseSeiNalu(naluPrefix: bool, s: seq<byte>): Option<Option<seq<byte>>>
  {
    if naluPrefix && (|s| < 4 || s[..4] != NALU_START_CODE) then None
    else
      var rbsp := Unescape(0, if naluPrefix then s[4..] else s);
      if |rbsp| < 2 || rbsp[0] != NALU_TYPE_SEI || rbsp[|rbsp| - 1] != RBSP_TRAILING_BYTE then None
      else ParseSeiMessage(rbsp[1..|rbsp| - 1])
  }

  /** A SEI message reads back as the user data it was built from. */
  lemma ParseSeiMessageRoundTrip(userData: Option<seq<byte>>)
    ensures ParseSeiMessage(SeiMessage(userData)) ==
      Some(if userData.Some? && |userData.value| >= 16 then userData else None)
  {
    var msg := SeiMessage(userData);
    if userData.Some? && |userData.value| >= 16 {
      var ud := userData.value;
      var sz := FFCoded(|ud|);
      assert msg == FFCoded(5) + (sz + ud);
      ReadFFCodedInverse(5, sz + ud);
      assert msg[1..] == sz + ud;
      ReadFFCodedInverse(|ud|, ud);
      assert msg[1 + |sz|..] == ud;
    }
  }

  /** A written SEI NAL unit reads back as the user data it was given. */
  lemma ParseSeiNaluRoundTrip(naluPrefix: bool, userData: Option<seq<byte>>)
    ensures ParseSeiNalu(naluPrefix, SeiNalu(naluPrefix, userData)) ==
      Some(if userData.Some? && |userData.value| >= 16 then userData else None)
  {
    var s := SeiNalu(naluPrefix, userData);
    var nb := NaluBytes(userData);
    UnescapeEscape(0, nb);
    if naluPrefix {
      assert s[..4] == NALU_START_CODE && s[4..] == Escape(0, nb).0;
    } else {
      assert s == Escape(0, nb).0;
    }
    assert nb[1..|nb| - 1] == SeiMessage(userData);
    ParseSeiMessageRoundTrip(userData);
  }

  /** The emitted NAL unit holds no 0x000000, 0x000001 or 0x000002 after its start code. */
  lemma SeiNaluNoStartCodeEmulation(naluPrefix: bool, userData: Option<seq<byte>>)
    ensures NoStartCodeEmulation(Escape(0, NaluBytes(userData)).0)
  {
    EscapeNoStartCode([], 0, NaluBytes(userData));
    assert [] + Escape(0, NaluBytes(userData)).0 == Escape(0, NaluBytes(userData)).0;
  }


  // ---------------------------------------------------------------------------
  // Bit strings, most significant bit first

  /** n zero bits. */
  function Zeros(n: nat): (r: seq<bool>)
    ensures |r| == n
  {
    seq(n, _ => false)
  }

  lemma ZerosAppend(a: nat, b: nat)
    ensures Zeros(a) + Zeros(b) == Zeros(a + b)
  {
  }

  /** The n low bits of v, most significant first: what `v` is to an n-bit field. */
  function BitsOf(v: nat, n: nat): (r: seq<bool>)
    ensures |r| == n
    decreases n
  {
    if n == 0 then [] else BitsOf(v / 2, n - 1) + [v % 2 == 1]
  }

  /** The number a bit string spells, most significant bit first. */
  function ValueOf(b: seq<bool>): (r: nat)
    ensures r < Power2(|b|)
    decreases |b|
  {
    if b == [] then 0 else 2 * ValueOf(b[..|b| - 1]) + (if b[|b| - 1] then 1 else 0)
  }

  lemma {:induction false} ValueOfBitsOf(v: nat, n: nat)
    requires v < Power2(n)
    ensures ValueOf(BitsOf(v, n)) == v
    decreases n
  {
    if n > 0 {
      var b := BitsOf(v, n);
      assert b[..n - 1] == BitsOf(v / 2, n - 1) && b[n - 1] == (v % 2 == 1);
      assert Power2(n) == 2 * Power2(n - 1);
      ValueOfBitsOf(v / 2, n - 1);
      assert v == 2 * (v / 2) + v % 2;
    }
  }

  lemma {:induction false} BitsOfValueOf(b: seq<bool>)
    ensures BitsOf(ValueOf(b), |b|) == b
    decreases |b|
  {
    if b != [] {
      var b' := b[..|b| - 1];
      BitsOfValueOf(b');
      assert b == b' + [b[|b| - 1]];
    }
  }

  /** Halving commutes with the division and remainder by a power of two. */
  lemma Halve(x: nat, p: nat)
    requires p > 0
    ensures (x / 2) / p == x / (2 * p)
    ensures (x % (2 * p)) / 2 == (x / 2) % p && (x % (2 * p)) % 2 == x % 2
  {
    var q, r := (x / 2) / p, (x / 2) % p;
    assert x / 2 == q * p + r;
    assert x == q * (2 * p) + (2 * r + x % 2);
    DivModUnique(x, q, 2 * r + x % 2, 2 * p);
  }

  /** `v >> k`: v without its k low bits. */
  function Shr(v: nat, k: nat): nat
    decreases k
  {
    if k == 0 then v else Shr(v / 2, k - 1)
  }

  /** An n+k-bit field is its n high bits (`v >> k`) followed by its k low bits. */
  lemma {:induction false} BitsOfSplit(v: nat, n: nat, k: nat)
    ensures BitsOf(v, n + k) == BitsOf(Shr(v, k), n) + BitsOf(v, k)
    decreases k
  {
    if k > 0 {
      BitsOfSplit(v / 2, n, k - 1);
      var hi, lo := BitsOf(Shr(v, k), n), BitsOf(v / 2, k - 1);
      assert BitsOf(v, n + k) == (hi + lo) + [v % 2 == 1];
      assert BitsOf(v, k) == lo + [v % 2 == 1];
    }
  }

  /** Masking with the k low bits does not change a k-bit field. */
  lemma {:induction false} BitsOfLow(v: nat, k: nat)
    ensures BitsOf(v % Power2(k), k) == BitsOf(v, k)
    decreases k
  {
    if k > 0 {
      Halve(v, Power2(k - 1));
      BitsOfLow(v / 2, k - 1);
    }
  }

  lemma {:induction false} ZeroBits(n: nat)
    ensures BitsOf(0, n) == Zeros(n)
    decreases n
  {
    if n > 0 {
      ZeroBits(n - 1);
    }
  }

  /** Bytes as bits, each byte most significant bit first. */
  function Unpack(s: seq<byte>): (r: seq<bool>)
    ensures |r| == 8 * |s|
    decreases |s|
  {
    if s == [] then [] else BitsOf(s[0] as nat, 8) + Unpack(s[1..])
  }

  /** Eight bits as the byte they spell: `(cache >> 24) & 0xFF` on the top eight. */
  function ByteOf(b: seq<bool>): byte
    requires |b| == 8
  {
    Power2Byte();
    ValueOf(b)
  }

  lemma Power2Byte()
    ensures Power2(8) == 256
  {
  }

  /** A whole number of bytes' worth of bits as those bytes. */
  function Pack(b: seq<bool>): (r: seq<byte>)
    requires |b| % 8 == 0
    ensures 8 * |r| == |b|
    decreases |b|
  {
    if b == [] then [] else [ByteOf(b[..8])] + Pack(b[8..])
  }

  lemma {:induction false} UnpackAppend(a: seq<byte>, b: seq<byte>)
    ensures Unpack(a + b) == Unpack(a) + Unpack(b)
    decreases |a|
  {
    if a != [] {
      var h := BitsOf(a[0] as nat, 8);
      calc {
        Unpack(a + b);
      == { assert (a + b)[0] == a[0] && (a + b)[1..] == a[1..] + b; }
        h + Unpack(a[1..] + b);
      == { UnpackAppend(a[1..], b); }
        h + (Unpack(a[1..]) + Unpack(b));
      ==
        (h + Unpack(a[1..])) + Unpack(b);
      }
    } else {
      assert a + b == b;
    }
  }

  lemma {:induction false} PackAppend(a: seq<bool>, b: seq<bool>)
    requires |a| % 8 == 0 && |b| % 8 == 0
    ensures Pack(a + b) == Pack(a) + Pack(b)
    decreases |a|
  {
    if a != [] {
      assert (a + b)[..8] == a[..8] && (a + b)[8..] == a[8..] + b;
      PackAppend(a[8..], b);
    } else {
      assert a + b == b;
    }
  }

  /** Packing the bits of bytes gives the bytes back. */
  lemma {:induction false} PackUnpack(s: seq<byte>)
    ensures Pack(Unpack(s)) == s
    decreases |s|
  {
    if s != [] {
      var u := Unpack(s);
      assert u[..8] == BitsOf(s[0] as nat, 8) && u[8..] == Unpack(s[1..]);
      Power2Byte();
      ValueOfBitsOf(s[0] as nat, 8);
      PackUnpack(s[1..]);
    }
  }

  /** Unpacking packed bits gives the bits back. */
  lemma {:induction false} UnpackPack(b: seq<bool>)
    requires |b| % 8 == 0
    ensures Unpack(Pack(b)) == b
    decreases |b|
  {
    if b != [] {
      var p := Pack(b);
      assert p[0] == ByteOf(b[..8]) && p[1..] == Pack(b[8..]);
      BitsOfValueOf(b[..8]);
      UnpackPack(b[8..]);
      assert b == b[..8] + b[8..];
    }
  }

  /** Byte i of packed bits is bits 8i to 8i+7. */
  lemma PackAt(b: seq<bool>, i: nat)
    requires |b| % 8 == 0 && i < |b| / 8
    ensures Pack(b)[i] == ByteOf(b[8 * i..8 * i + 8])
  {
    var x, y := b[..8 * i], b[8 * i..];
    assert b == x + y && |y| >= 8;
    PackAppend(x, y);
    assert Pack(y)[0] == ByteOf(y[..8]);
    assert y[..8] == b[8 * i..8 * i + 8];
  }

  /**
   * What writeBits does to the pending bits p when `bits` are written: they
   * go in after p; once 32 are pending, the 32 leave as four bytes.
   */
  function AppendBits(p: seq<bool>, bits: seq<bool>): (r: (seq<byte>, seq<bool>))
    requires |p| < 32 && |bits| <= 32
    ensures |r.1| < 32 && (|r.0| == 0 || |r.0| == 4)
  {
    var s := p + bits;
    if |s| >= 32 then (Pack(s[..32]), s[32..]) else ([], s)
  }

  /** No bit is lost or reordered: the bytes out, then the bits left, are the bits before and after. */
  lemma AppendBitsKeepsBits(p: seq<bool>, bits: seq<bool>)
    requires |p| < 32 && |bits| <= 32
    ensures var r := AppendBits(p, bits); Unpack(r.0) + r.1 == p + bits
  {
    var s := p + bits;
    if |s| >= 32 {
      UnpackPack(s[..32]);
      assert s == s[..32] + s[32..];
    }
  }

  /**
   * writeBits when the bits reach the end of the cache: the bytes out are
   * the pending bits completed by the value's high bits, and what stays
   * pending is the value's remaining low bits.
   */
  lemma FlushBits(p: seq<bool>, value: nat, numBits: nat)
    requires |p| < 32 && 32 - |p| <= numBits <= 32
    ensures var a := AppendBits(p, BitsOf(value, numBits));
      var rem := numBits - (32 - |p|);
      a.0 == Pack(p + BitsOf(value, numBits)[..32 - |p|]) &&
      a.1 == BitsOf(value % Power2(rem), rem)
  {
    var cb, rem := 32 - |p|, numBits - (32 - |p|);
    var bits := BitsOf(value, numBits);
    BitsOfSplit(value, cb, rem);
    BitsOfLow(value, rem);
    var s := p + bits;
    assert s[..32] == p + bits[..cb];
    assert s[32..] == bits[cb..] == BitsOf(value, rem);
  }

  /** writeBits when the bits do not reach the end of the cache: they stay pending. */
  lemma KeepBits(p: seq<bool>, value: nat, numBits: nat)
    requires |p| + numBits < 32
    ensures AppendBits(p, BitsOf(value, numBits)) == ([], p + BitsOf(value, numBits))
  {
  }

  /** The cache after i of the shifts by 8 of its top bytes. */
  lemma CacheShift(c0: seq<bool>, i: nat, count: nat)
    requires |c0| == 32 && i < count <= 4
    ensures (c0[8 * i..] + Zeros(8 * i))[..8] == c0[..8 * count][8 * i..8 * i + 8]
    ensures (c0[8 * i..] + Zeros(8 * i))[8..] + Zeros(8) == c0[8 * (i + 1)..] + Zeros(8 * (i + 1))
  {
    var x := c0[8 * i..] + Zeros(8 * i);
    assert x[8..] == c0[8 * (i + 1)..] + Zeros(8 * i);
    ZerosAppend(8 * i, 8);
  }

  /** bitstreamByteAlign's result: the pending bits, completed with zeros to a whole byte, as bytes. */
  function Aligned(p: seq<bool>): (r: seq<byte>)
    ensures |r| == (|p| + 7) / 8
  {
    Pack(p + Zeros((8 - |p| % 8) % 8))
  }

  /** The aligned bytes hold the pending bits, then zeros. */
  lemma AlignedBits(p: seq<bool>)
    ensures Unpack(Aligned(p)) == p + Zeros((8 - |p| % 8) % 8)
  {
    UnpackPack(p + Zeros((8 - |p| % 8) % 8));
  }

  /** The align step when the pad leaves the cache short of 32 bits: the bits stay pending. */
  lemma PadStays(p: seq<bool>)
    requires |p| < 24 && |p| % 8 != 0
    ensures (8 - |p| % 8) % 8 == 8 - |p| % 8
    ensures var pad := 8 - |p| % 8;
      var a := AppendBits(p, BitsOf(0, pad));
      a.0 == [] && a.1 == p + Zeros(pad) && |a.1| % 8 == 0 && Pack(a.1) == Aligned(p)
  {
    var pad := 8 - |p| % 8;
    ZeroBits(pad);
    assert (8 - |p| % 8) % 8 == pad;
    assert AppendBits(p, BitsOf(0, pad)) == ([], p + Zeros(pad));
  }

  /** The align step when the pad completes the cache: it all leaves. */
  lemma PadFills(p: seq<bool>)
    requires 24 < |p| < 32
    ensures 8 - |p| % 8 == 32 - |p| && (8 - |p| % 8) % 8 == 32 - |p| && |p| / 8 == 3
    ensures var a := AppendBits(p, BitsOf(0, 32 - |p|));
      a.0 == Aligned(p) && a.1 == []
  {
    var pad := 32 - |p|;
    assert |p| % 8 == |p| - 24 && |p| / 8 == 3;
    assert (8 - |p| % 8) % 8 == pad;
    ZeroBits(pad);
    var s := p + Zeros(pad);
    assert |s| == 32 && s[..32] == s && s[32..] == [];
    assert AppendBits(p, BitsOf(0, pad)) == (Pack(s), []);
    assert Aligned(p) == Pack(s);
  }

  /** The 32-bit field 0x00000001 is the bits of the start code's bytes. */
  lemma StartCodeUnpacked()
    ensures BitsOf(1, 32) == Unpack(NALU_START_CODE)
  {
    var z, one := Zeros(8), BitsOf(1, 8);
    ZeroBits(8);
    ByteBits(0);
    ByteBits(1);
    UnpackAppend([0], [1]);
    assert Unpack([0, 1]) == z + one by {
      assert [0, 1] == [0] + [1];
    }
    UnpackAppend([0], [0, 1]);
    assert Unpack([0, 0, 1]) == z + (z + one) by {
      assert [0, 0, 1] == [0] + [0, 1];
    }
    UnpackAppend([0], [0, 0, 1]);
    assert Unpack(NALU_START_CODE) == z + (z + (z + one)) by {
      assert NALU_START_CODE == [0] + [0, 0, 1];
    }
    BitsOfSplit(1, 24, 8);
    assert Shr(1, 8) == 0;
    ZeroBits(24);
    assert Zeros(24) == z + z + z;
  }

  /** The start code as writeBits(32, 0x00000001) leaves it. */
  lemma StartCodeBits()
    ensures AppendBits([], BitsOf(1, 32)) == (NALU_START_CODE, [])
  {
    var u := Unpack(NALU_START_CODE);
    StartCodeUnpacked();
    PackUnpack(NALU_START_CODE);
    assert [] + u == u && u[..32] == u && u[32..] == [];
  }

  /** A byte through writeBits: its 8 bits. */
  lemma ByteBits(b: byte)
    ensures BitsOf(b as nat, 8) == Unpack([b])
  {
    assert [b][1..] == [];
  }

  /** The rbsp_trailing_bits: a one bit, then seven zero bits. */
  lemma TrailingBits()
    ensures BitsOf(1, 1) + Zeros(7) == Unpack([RBSP_TRAILING_BYTE])
  {
    ZeroBits(7);
    BitsOfSplit(0x80, 1, 7);
    Power2Byte();
    assert Power2(7) == 128;
    BitsOfLow(0x80, 7);
    ByteBits(RBSP_TRAILING_BYTE);
  }

  /** The trailing one bit after the pending bytes, aligned: those bytes and 0x80. */
  lemma TrailingStep(pend: seq<byte>)
    requires |pend| < 4
    ensures var p := Unpack(pend) + BitsOf(1, 1);
      |p| < 32 && |p| % 8 == 1 && Aligned(p) == pend + [RBSP_TRAILING_BYTE]
  {
    var p := Unpack(pend) + BitsOf(1, 1);
    var t := pend + [RBSP_TRAILING_BYTE];
    assert |p| == 8 * |pend| + 1;
    assert (8 - |p| % 8) % 8 == 7;
    calc {
      Aligned(p);
    ==
      Pack(p + Zeros(7));
    == { TrailingBits();
         assert p + Zeros(7) == Unpack(pend) + (BitsOf(1, 1) + Zeros(7)); }
      Pack(Unpack(pend) + Unpack([RBSP_TRAILING_BYTE]));
    == { UnpackAppend(pend, [RBSP_TRAILING_BYTE]); }
      Pack(Unpack(t));
    == { PackUnpack(t); }
      t;
    }
  }

  // ---------------------------------------------------------------------------
  // Emitting bytes

  /** Bytes through emulation prevention when `ep` is set, verbatim otherwise. */
  function Emit(zc: nat, s: seq<byte>, ep: bool): (seq<byte>, nat)
  {
    if ep then Escape(zc, s) else (s, zc)
  }

  /** One byte of Emit. */
  function EmitByte(zc: nat, b: byte, ep: bool): (seq<byte>, nat)
  {
    if ep then EscapeByte(zc, b) else ([b], zc)
  }

  /** Escaping a longer string extends the escaped shorter one. */
  lemma EscapePrefix(zc: nat, a: seq<byte>, b: seq<byte>)
    ensures Escape(zc, a).0 <= Escape(zc, a + b).0
  {
    EscapeAppend(zc, a, b);
  }

  /** Output cut short inside a prefix of what was to be written is cut short inside all of it. */
  lemma TruncatedPrefix(out: seq<byte>, p: seq<byte>, e: seq<byte>, n: nat)
    requires p <= e && n < |out + p|
    ensures n < |out + e| && (out + p)[..n] == (out + e)[..n]
  {
    assert out + p <= out + e;
  }

  /** The byte loop, one byte at a time. */
  lemma EmitStep(zc: nat, s: seq<byte>, i: nat, ep: bool)
    requires i < |s|
    ensures var e := Emit(zc, s[..i], ep);
      var h := EmitByte(e.1, s[i], ep);
      Emit(zc, s[..i + 1], ep) == (e.0 + h.0, h.1) && Emit(zc, s[..i + 1], ep).0 <= Emit(zc, s, ep).0
  {
    assert s[..i + 1] == s[..i] + [s[i]];
    assert s == s[..i + 1] + s[i + 1..];
    if ep {
      EscapeAppend(zc, s[..i], [s[i]]);
      var e := Escape(zc, s[..i]);
      assert Escape(e.1, [s[i]]) == EscapeByte(e.1, s[i]) by {
        assert [s[i]][1..] == [];
        assert EscapeByte(e.1, s[i]).0 + [] == EscapeByte(e.1, s[i]).0;
      }
      EscapePrefix(zc, s[..i + 1], s[i + 1..]);
    }
  }

  /**
   * A byte written through writeBits after whole pending bytes: with three
   * pending, all four leave the cache; with fewer, the byte joins them.
   */
  lemma ByteStep(pend: seq<byte>, b: byte)
    requires |pend| < 4
    ensures var a := AppendBits(Unpack(pend), BitsOf(b as nat, 8));
      (|pend| == 3 ==> a.0 == pend + [b] && a.1 == []) &&
      (|pend| < 3 ==> a.0 == [] && a.1 == Unpack(pend + [b]))
  {
    var bits := BitsOf(b as nat, 8);
    assert Unpack(pend) + bits == Unpack(pend + [b]) by {
      ByteBits(b);
      UnpackAppend(pend, [b]);
    }
    if |pend| == 3 {
      FullCache(pend + [b]);
    }
  }

  /** Four bytes of cache bits leave as those four bytes and nothing stays. */
  lemma FullCache(s: seq<byte>)
    requires |s| == 4
    ensures Pack(Unpack(s)[..32]) == s && Unpack(s)[32..] == []
  {
    var u := Unpack(s);
    assert u[..32] == u;
    PackUnpack(s);
  }

  /**
   * The bytes out of the cache and the bytes in it after one more byte:
   * the fourth pending byte takes all four out.
   */
  function Push(done: seq<byte>, pend: seq<byte>, b: byte): (r: (seq<byte>, seq<byte>))
    requires |pend| < 4
    ensures r.0 + r.1 == done + pend + [b] && |r.1| < 4
  {
    if |pend| == 3 then (done + (pend + [b]), []) else (done, pend + [b])
  }

  /** Output that is the escaped bytes `done` goes on to be the escaped bytes done + s. */
  lemma EscapeMore(head: seq<byte>, done: seq<byte>, s: seq<byte>, out: seq<byte>, zc: nat)
    requires out == head + Escape(0, done).0 && zc == Escape(0, done).1
    ensures out + Escape(zc, s).0 == head + Escape(0, done + s).0 && Escape(zc, s).1 == Escape(0, done + s).1
  {
    EscapeAppend(0, done, s);
  }

  /**
   * writeBits(8, b, 1) on a writer whose output is `out` after the bytes
   * `done` and whose cache holds `pend`: what it emits and what it keeps
   * are what Push says.
   */
  lemma ByteWritten(head: seq<byte>, done: seq<byte>, pend: seq<byte>, b: byte, out: seq<byte>, zc: nat)
    requires |pend| < 4 && out == head + Escape(0, done).0 && zc == Escape(0, done).1
    ensures var a := AppendBits(Unpack(pend), BitsOf(b as nat, 8));
      var e := Emit(zc, a.0, true);
      var n := Push(done, pend, b);
      a.1 == Unpack(n.1) && out + e.0 == head + Escape(0, n.0).0 && e.1 == Escape(0, n.0).1 &&
      (e.0 != [] ==> n.0 == done + pend + [b])
  {
    ByteStep(pend, b);
    if |pend| == 3 {
      EscapeMore(head, done, pend + [b], out, zc);
    } else {
      assert Escape(zc, []) == ([], zc);
    }
  }

  /**
   * The trailing bits on a writer whose output is `out` after the bytes
   * `done` and whose cache holds `pend`: the one bit stays in the cache,
   * and aligning emits the rest of the NAL unit.
   */
  lemma TrailingWritten(head: seq<byte>, done: seq<byte>, pend: seq<byte>, out: seq<byte>, zc: nat)
    requires |pend| < 4 && out == head + Escape(0, done).0 && zc == Escape(0, done).1
    ensures var p := Unpack(pend) + BitsOf(1, 1);
      |p| < 32 && AppendBits(Unpack(pend), BitsOf(1, 1)) == ([], p) && Emit(zc, [], true) == ([], zc) &&
      out + Emit(zc, Aligned(p), true).0 == head + Escape(0, done + (pend + [RBSP_TRAILING_BYTE])).0
  {
    TrailingStep(pend);
    EscapeMore(head, done, pend + [RBSP_TRAILING_BYTE], out, zc);
    assert Escape(zc, []) == ([], zc);
  }

  /** The bytes after l, one more of them at a time. */
  lemma PrefixStep(l: seq<byte>, s: seq<byte>, i: nat)
    requires i < |s|
    ensures l + s[..i] + [s[i]] == l + s[..i + 1]
    ensures l + s[..i + 1] + s[i + 1..] == l + s
  {
    assert s[..i + 1] == s[..i] + [s[i]];
    assert s == s[..i + 1] + s[i + 1..];
  }

  /** The three parts of a message after l, grouped as the writer meets them. */
  lemma MessageParts(l: seq<byte>, t: seq<byte>, z: seq<byte>, u: seq<byte>)
    ensures l + (t + z + u) == (l + t) + (z + u) == (l + t + z) + u
  {
  }

  // ---------------------------------------------------------------------------
  // The writer

  /**
   * An H.264 SEI NAL unit writer (BEAVER_Writer_t): the output buffer and
   * how much of it is written, and the 32-bit cache of pending bits.
   */
  class Writer {
    /** Whether WriteSeiNalu starts the NAL unit with an Annex B start code. */
    var naluPrefix: bool
    var buf: array<byte>
    var naluSize: nat
    /** The uint32 cache, bit 31 first; its top cacheLength bits are pending. */
    var cache: seq<bool>
    var cacheLength: int
    /** How many 0x00 bytes were emitted last, for emulation prevention. */
    var oldZeroCount: nat

    /** The cache holds cacheLength bits with zeros below them. */
    predicate Valid()
      reads this
    {
      |cache| == 32 && 0 <= cacheLength < 32 && cache[cacheLength..] == Zeros(32 - cacheLength) &&
      naluSize <= buf.Length && oldZeroCount <= 2
    }

    /** What a failed write leaves: the buffer is full and the cache means nothing. */
    predicate Spent()
      reads this
    {
      |cache| == 32 && 0 <= cacheLength < 32 && naluSize == buf.Length && oldZeroCount <= 2
    }

    function Output(): seq<byte>
      reads this, buf
      requires naluSize <= buf.Length
    {
      buf[..naluSize]
    }

    function Pending(): seq<bool>
      reads this
      requires Valid()
    {
      cache[..cacheLength]
    }

    /** BEAVER_Writer_Init: a zeroed writer that keeps the configuration given, if any. */
    constructor Init(config: Option<bool>)
      ensures naluPrefix == (config.Some? && config.value)
      ensures naluSize == 0 && cache == Zeros(32) && cacheLength == 0 && oldZeroCount == 0
      ensures Valid()
    {
      naluPrefix := config.Some? && config.value;
      buf := new byte[0];
      naluSize := 0;
      cache := Zeros(32);
      cacheLength := 0;
      oldZeroCount := 0;
    }

    /** One byte stored if the buffer has room: the check writeBits makes before each store. */
    method PutByte(b: byte) returns (ok: bool)
      requires naluSize <= buf.Length
      modifies buf, `naluSize
      ensures ok <==> old(naluSize) < buf.Length
      ensures ok ==> naluSize == old(naluSize) + 1 && Output() == old(Output()) + [b]
      ensures !ok ==> naluSize == old(naluSize) && unchanged(buf)
    {
      if naluSize < buf.Length {
        ghost var o := buf[..naluSize];
        buf[naluSize] := b;
        naluSize := naluSize + 1;
        assert buf[..naluSize] == o + [b];
        ok := true;
      } else {
        ok := false;
      }
    }

    /** One byte of the cache loop: an emulation prevention byte first when due, then the byte. */
    method WriteCacheByte(b: byte, ep: bool) returns (ok: bool)
      requires naluSize <= buf.Length && oldZeroCount <= 2
      modifies buf, `naluSize, `oldZeroCount
      ensures naluSize <= buf.Length && oldZeroCount <= 2
      ensures var h := EmitByte(old(oldZeroCount), b, ep);
        var full := old(Output()) + h.0;
        (ok <==> |full| <= buf.Length) &&
        (ok ==> Output() == full && oldZeroCount == h.1) &&
        (!ok ==> naluSize == buf.Length && Output() == full[..buf.Length])
    {
      ghost var o := Output();
      ghost var h := EmitByte(oldZeroCount, b, ep);
      ghost var escaped := false;
      if ep {
        if oldZeroCount == 2 && b <= 3 {
          ok := PutByte(EMULATION_PREVENTION_BYTE);
          if !ok {
            assert (o + h.0)[..buf.Length] == o;
            return;
          }
          escaped := true;
          oldZeroCount := 0;
        }
        if b == 0 {
          oldZeroCount := oldZeroCount + 1;
        } else {
          oldZeroCount := 0;
        }
      }
      ghost var mid := Output();
      assert mid == if escaped then o + [EMULATION_PREVENTION_BYTE] else o;
      assert o + h.0 == mid + [b];
      ok := PutByte(b);
    }

    /**
     * The loop writeBits and (with the correction) bitstreamByteAlign share:
     * the top `count` bytes of the cache go out, each through emulation
     * prevention when `ep` is set, the cache shifting left by 8 after each.
     */
    method WriteCacheBytes(count: nat, ep: bool) returns (ok: bool)
      requires count <= 4 && |cache| == 32 && naluSize <= buf.Length && oldZeroCount <= 2
      modifies buf, `naluSize, `cache, `oldZeroCount
      ensures |cache| == 32 && naluSize <= buf.Length && oldZeroCount <= 2
      ensures var e := Emit(old(oldZeroCount), Pack(old(cache)[..8 * count]), ep);
        ok <==> |old(Output()) + e.0| <= buf.Length
      ensures var e := Emit(old(oldZeroCount), Pack(old(cache)[..8 * count]), ep);
        ok ==> Output() == old(Output()) + e.0 && oldZeroCount == e.1
      ensures ok ==> cache == old(cache)[8 * count..] + Zeros(8 * count)
      ensures var e := Emit(old(oldZeroCount), Pack(old(cache)[..8 * count]), ep);
        !ok ==> naluSize == buf.Length && Output() == (old(Output()) + e.0)[..buf.Length]
    {
      ghost var c0 := cache;
      ghost var s := Pack(c0[..8 * count]);
      ghost var zc0 := oldZeroCount;
      ghost var out0 := Output();
      var i := 0;
      while i < count
        invariant 0 <= i <= count
        invariant naluSize <= buf.Length && oldZeroCount <= 2
        invariant Output() == out0 + Emit(zc0, s[..i], ep).0 && oldZeroCount == Emit(zc0, s[..i], ep).1
        invariant cache == c0[8 * i..] + Zeros(8 * i)
      {
        ok := WriteTopByte(ep, out0, zc0, c0, count, i);
        if !ok {
          return;
        }
        i := i + 1;
      }
      assert s[..i] == s;
      ok := true;
    }

    /**
     * writeBits: the numBits low bits of `value` go in after the pending
     * bits; once 32 bits are pending they leave as four bytes (through
     * emulation prevention when `ep` is set), as AppendBits says. Returns
     * numBits, or -1 when the buffer runs out, with as much of the output
     * as fits.
     */
    method WriteBits(numBits: nat, value: nat, ep: bool) returns (ret: int)
      requires Valid() && numBits <= 32 && value < Power2(numBits)
      modifies buf, `naluSize, `cache, `cacheLength, `oldZeroCount
      ensures ret == numBits || ret == -1
      ensures var a := AppendBits(old(Pending()), BitsOf(value, numBits));
        var e := Emit(old(oldZeroCount), a.0, ep);
        ret == numBits <==> |old(Output()) + e.0| <= buf.Length
      ensures var a := AppendBits(old(Pending()), BitsOf(value, numBits));
        var e := Emit(old(oldZeroCount), a.0, ep);
        ret == numBits ==> (Valid() && Output() == old(Output()) + e.0 && Pending() == a.1 &&
                            oldZeroCount == e.1)
      ensures var a := AppendBits(old(Pending()), BitsOf(value, numBits));
        var full := old(Output()) + Emit(old(oldZeroCount), a.0, ep).0;
        ret == -1 ==> Spent() && cacheLength == old(cacheLength) && Output() == full[..buf.Length]
    {
      if numBits >= 32 - cacheLength {
        ret := FillAndFlush(numBits, value, ep);
      } else {
        KeepBits(Pending(), value, numBits);
        if numBits > 0 {
          AddBits(value, numBits);
        }
        ret := numBits;
      }
    }

    /**
     * writeBits when the bits reach the end of the cache: the cache is
     * completed with the value's high bits and goes out, then the remaining
     * low bits (masked) start a new cache.
     */
    method FillAndFlush(numBits: nat, value: nat, ep: bool) returns (ret: int)
      requires Valid() && 32 - cacheLength <= numBits <= 32
      modifies buf, `naluSize, `cache, `cacheLength, `oldZeroCount
      ensures ret == numBits || ret == -1
      ensures var a := AppendBits(old(Pending()), BitsOf(value, numBits));
        var e := Emit(old(oldZeroCount), a.0, ep);
        ret == numBits <==> |old(Output()) + e.0| <= buf.Length
      ensures var a := AppendBits(old(Pending()), BitsOf(value, numBits));
        var e := Emit(old(oldZeroCount), a.0, ep);
        ret == numBits ==> (Valid() && Output() == old(Output()) + e.0 && Pending() == a.1 &&
                            oldZeroCount == e.1)
      ensures var a := AppendBits(old(Pending()), BitsOf(value, numBits));
        var full := old(Output()) + Emit(old(oldZeroCount), a.0, ep).0;
        ret == -1 ==> Spent() && cacheLength == old(cacheLength) && Output() == full[..buf.Length]
    {
      var cacheBits := 32 - cacheLength;
      var remBits := numBits - cacheBits;
      FlushBits(Pending(), value, numBits);
      FillCache(value, remBits);
      assert cache[..8 * 4] == cache;
      var ok := WriteCacheBytes(4, ep);
      if !ok {
        return -1;
      }
      var v := value % Power2(remBits);
      Restart(v, remBits);
      ret := numBits;
    }

    /** The cache reset to zero, then the bits left over put in. */
    method Restart(v: nat, n: nat)
      requires n < 32 && naluSize <= buf.Length && oldZeroCount <= 2
      modifies `cache, `cacheLength
      ensures Valid() && Pending() == BitsOf(v, n)
    {
      ResetCache();
      if n > 0 {
        AddBits(v, n);
      }
    }

    /**
     * bitstreamByteAlign, with the cache loop shared with writeBits: zero
     * bits up to the next byte boundary, then the whole bytes still in the
     * cache go out; the cache is left empty. Returns the number of zero
     * bits, or -1 when the buffer runs out, with as much of the output as
     * fits.
     */
    method ByteAlign(ep: bool) returns (ret: int)
      requires Valid()
      modifies buf, `naluSize, `cache, `cacheLength, `oldZeroCount
      ensures var e := Emit(old(oldZeroCount), Aligned(old(Pending())), ep);
        ret >= 0 <==> |old(Output()) + e.0| <= buf.Length
      ensures var e := Emit(old(oldZeroCount), Aligned(old(Pending())), ep);
        ret >= 0 ==> (Valid() && ret == (8 - old(cacheLength) % 8) % 8 && cacheLength == 0 &&
                      Output() == old(Output()) + e.0 && oldZeroCount == e.1)
      ensures var e := Emit(old(oldZeroCount), Aligned(old(Pending())), ep);
        ret < 0 ==> (ret == -1 && Spent() && Output() == (old(Output()) + e.0)[..buf.Length])
    {
      if cacheLength % 8 == 0 {
        ret := AlignedFlush(ep);
      } else if cacheLength < 24 {
        ret := PadAndFlush(ep);
      } else {
        ret := PadFull(ep);
      }
    }

    /** bitstreamByteAlign on whole bytes: no zero bits, the cache loop only. */
    method AlignedFlush(ep: bool) returns (ret: int)
      requires Valid() && cacheLength % 8 == 0
      modifies buf, `naluSize, `cache, `cacheLength, `oldZeroCount
      ensures var e := Emit(old(oldZeroCount), Aligned(old(Pending())), ep);
        ret >= 0 <==> |old(Output()) + e.0| <= buf.Length
      ensures var e := Emit(old(oldZeroCount), Aligned(old(Pending())), ep);
        ret >= 0 ==> (Valid() && ret == (8 - old(cacheLength) % 8) % 8 && cacheLength == 0 &&
                      Output() == old(Output()) + e.0 && oldZeroCount == e.1)
      ensures var e := Emit(old(oldZeroCount), Aligned(old(Pending())), ep);
        ret < 0 ==> (ret == -1 && Spent() && Output() == (old(Output()) + e.0)[..buf.Length])
    {
      assert Pending() + Zeros(0) == Pending();
      var ok := FlushPending(ep);
      ret := if ok then 0 else -1;
    }

    /** The cache loop of bitstreamByteAlign on whole bytes: they all go out and the cache empties. */
    method FlushPending(ep: bool) returns (ok: bool)
      requires Valid() && cacheLength % 8 == 0
      modifies buf, `naluSize, `cache, `cacheLength, `oldZeroCount
      ensures var e := Emit(old(oldZeroCount), Pack(old(Pending())), ep);
        ok <==> |old(Output()) + e.0| <= buf.Length
      ensures var e := Emit(old(oldZeroCount), Pack(old(Pending())), ep);
        ok ==> (Valid() && cacheLength == 0 && Output() == old(Output()) + e.0 && oldZeroCount == e.1)
      ensures var e := Emit(old(oldZeroCount), Pack(old(Pending())), ep);
        !ok ==> (Spent() && Output() == (old(Output()) + e.0)[..buf.Length])
    {
      if cacheLength != 0 {
        assert cache[..8 * (cacheLength / 8)] == cache[..cacheLength];
        ok := WriteCacheBytes(cacheLength / 8, ep);
        if !ok {
          return;
        }
        ResetCache();
      } else {
        ok := true;
      }
    }

    /** bitstreamByteAlign when fewer than 24 bits are pending: the zero bits stay in the cache. */
    method PadAndFlush(ep: bool) returns (ret: int)
      requires Valid() && cacheLength % 8 != 0 && cacheLength < 24
      modifies buf, `naluSize, `cache, `cacheLength, `oldZeroCount
      ensures var e := Emit(old(oldZeroCount), Aligned(old(Pending())), ep);
        ret >= 0 <==> |old(Output()) + e.0| <= buf.Length
      ensures var e := Emit(old(oldZeroCount), Aligned(old(Pending())), ep);
        ret >= 0 ==> (Valid() && ret == (8 - old(cacheLength) % 8) % 8 && cacheLength == 0 &&
                      Output() == old(Output()) + e.0 && oldZeroCount == e.1)
      ensures var e := Emit(old(oldZeroCount), Aligned(old(Pending())), ep);
        ret < 0 ==> (ret == -1 && Spent() && Output() == (old(Output()) + e.0)[..buf.Length])
    {
      ghost var p := Pending();
      ret := WriteZeroBits(ep);
      assert Pack(Pending()) == Aligned(p);
      var ok := FlushPending(ep);
      if !ok {
        ret := -1;
      }
    }

    /** writeBits of the zero bits up to the byte boundary when they fit in the cache. */
    method WriteZeroBits(ep: bool) returns (ret: int)
      requires Valid() && cacheLength % 8 != 0 && cacheLength < 24
      modifies buf, `naluSize, `cache, `cacheLength, `oldZeroCount
      ensures ret == (8 - old(cacheLength) % 8) % 8
      ensures Valid() && cacheLength % 8 == 0 && Pack(Pending()) == Aligned(old(Pending()))
      ensures naluSize == old(naluSize) && Output() == old(Output()) && oldZeroCount == old(oldZeroCount)
    {
      PadStays(Pending());
      assert Emit(oldZeroCount, [], ep) == ([], oldZeroCount);
      ret := WriteBits(8 - cacheLength % 8, 0, ep);
      // cannot fail: the zero bits stay in the cache
    }

    /**
     * bitstreamByteAlign when more than 24 bits are pending: the zero bits
     * fill the cache, which writeBits empties. When that fails, the cache
     * loop that follows fails too, the buffer being full.
     */
    method PadFull(ep: bool) returns (ret: int)
      requires Valid() && cacheLength % 8 != 0 && 24 <= cacheLength
      modifies buf, `naluSize, `cache, `cacheLength, `oldZeroCount
      ensures var e := Emit(old(oldZeroCount), Aligned(old(Pending())), ep);
        ret >= 0 <==> |old(Output()) + e.0| <= buf.Length
      ensures var e := Emit(old(oldZeroCount), Aligned(old(Pending())), ep);
        ret >= 0 ==> (Valid() && ret == (8 - old(cacheLength) % 8) % 8 && cacheLength == 0 &&
                      Output() == old(Output()) + e.0 && oldZeroCount == e.1)
      ensures var e := Emit(old(oldZeroCount), Aligned(old(Pending())), ep);
        ret < 0 ==> (ret == -1 && Spent() && Output() == (old(Output()) + e.0)[..buf.Length])
    {
      PadFills(Pending());
      ret := WriteBits(8 - cacheLength % 8, 0, ep);
      if ret < 0 {
        ghost var out := Output();
        var ok := WriteCacheBytes(cacheLength / 8, ep);
        assert !ok && Output() == out;
      }
    }

    /**
     * The writer inside a NAL unit, after `head`: the bytes `done` have
     * left the cache and are in the buffer, escaped, after head; the bytes
     * `pend` are in the cache.
     */
    ghost predicate Holds(head: seq<byte>, done: seq<byte>, pend: seq<byte>)
      reads this, buf
    {
      Valid() && |pend| < 4 && Pending() == Unpack(pend) &&
      Output() == head + Escape(0, done).0 && oldZeroCount == Escape(0, done).1
    }

    /** A write failed on the way to `target`: the buffer holds as much of it as fits. */
    ghost predicate Fails(target: seq<byte>)
      reads this, buf
    {
      Spent() && |target| > buf.Length && Output() == target[..buf.Length]
    }

    /** A write that failed on the way to some bytes failed on the way to any bytes after them. */
    lemma FailsExtend(head: seq<byte>, a: seq<byte>, b: seq<byte>)
      requires Fails(head + Escape(0, a).0)
      ensures Fails(head + Escape(0, a + b).0)
    {
      EscapePrefix(0, a, b);
      TruncatedPrefix(head, Escape(0, a).0, Escape(0, a + b).0, buf.Length);
    }

    /** writeBits(8, b, 1) inside a NAL unit: b joins the bytes written. */
    method WriteByte(b: byte, ghost head: seq<byte>, ghost done: seq<byte>, ghost pend: seq<byte>)
      returns (ret: int, ghost done': seq<byte>, ghost pend': seq<byte>)
      requires Holds(head, done, pend)
      modifies buf, `naluSize, `cache, `cacheLength, `oldZeroCount
      ensures done' + pend' == done + pend + [b]
      ensures ret == 8 || ret == -1
      ensures ret == 8 ==> Holds(head, done', pend')
      ensures ret == -1 ==> Fails(head + Escape(0, done + pend + [b]).0)
    {
      ByteWritten(head, done, pend, b, Output(), oldZeroCount);
      Power2Byte();
      ret := WriteBits(8, b as nat, true);
      done', pend' := Push(done, pend, b).0, Push(done, pend, b).1;
    }

    /**
     * The ff_byte loop and the last byte of payloadType or payloadSize
     * (section 7.3.2.3.1 of ITU-T H.264), with the loop condition corrected
     * to go on while 255 or more remains.
     */
    method WriteFFCoded(v: nat, ghost head: seq<byte>, ghost done: seq<byte>, ghost pend: seq<byte>)
      returns (ok: bool, ghost done': seq<byte>, ghost pend': seq<byte>)
      requires Holds(head, done, pend)
      modifies buf, `naluSize, `cache, `cacheLength, `oldZeroCount
      ensures done' + pend' == done + pend + FFCoded(v)
      ensures ok ==> Holds(head, done', pend')
      ensures !ok ==> Fails(head + Escape(0, done + pend + FFCoded(v)).0)
    {
      var rest := v;
      done', pend' := done, pend;
      while rest >= 255
        invariant done' + pend' + FFCoded(rest) == done + pend + FFCoded(v)
        invariant Holds(head, done', pend')
      {
        assert FFCoded(rest) == [0xFF] + FFCoded(rest - 255);
        ghost var m := done' + pend' + [0xFF];
        assert m + FFCoded(rest - 255) == done + pend + FFCoded(v);
        var r;
        r, done', pend' := WriteByte(0xFF, head, done', pend');
        if r < 0 {
          FailsExtend(head, m, FFCoded(rest - 255));
          return false, done + pend + FFCoded(v), [];
        }
        rest := rest - 255;
      }
      ghost var m := done' + pend' + [rest as byte];
      assert m == done + pend + FFCoded(v);
      var r;
      r, done', pend' := WriteByte(rest as byte, head, done', pend');
      ok := r >= 0;
    }

    /** BEAVER_Writer_WriteSeiPayload_userDataUnregistered: the payload bytes, 8 bits each. */
    method WriteSeiPayload(payload: seq<byte>, ghost head: seq<byte>, ghost done: seq<byte>, ghost pend: seq<byte>)
      returns (ret: int, ghost done': seq<byte>, ghost pend': seq<byte>)
      requires Holds(head, done, pend) && 8 * |payload| < 0x8000_0000
      modifies buf, `naluSize, `cache, `cacheLength, `oldZeroCount
      ensures done' + pend' == done + pend + payload
      ensures ret == 8 * |payload| || ret == -1
      ensures ret >= 0 ==> ret == 8 * |payload| && Holds(head, done', pend')
      ensures ret < 0 ==> ret == -1 && Fails(head + Escape(0, done + pend + payload).0)
    {
      var bitsWritten := 0;
      var i := 0;
      done', pend' := done, pend;
      assert payload[..0] == [];
      while i < |payload|
        invariant 0 <= i <= |payload| && bitsWritten == 8 * i
        invariant done' + pend' == done + pend + payload[..i]
        invariant Holds(head, done', pend')
      {
        ghost var m := done' + pend' + [payload[i]];
        PrefixStep(done + pend, payload, i);
        ret, done', pend' := WriteByte(payload[i], head, done', pend');
        if ret < 0 {
          FailsExtend(head, m, payload[i + 1..]);
          done', pend' := done + pend + payload, [];
          return;
        }
        bitsWritten := bitsWritten + ret;
        i := i + 1;
      }
      assert payload[..i] == payload;
      ret := bitsWritten;
    }

    /**
     * The rbsp_trailing_bits (section 7.3.2.11 of ITU-T H.264): writeBits of
     * a one bit, then bitstreamByteAlign; nothing is left pending.
     */
    method WriteTrailingBits(ghost head: seq<byte>, ghost done: seq<byte>, ghost pend: seq<byte>) returns (ok: bool)
      requires Holds(head, done, pend)
      modifies buf, `naluSize, `cache, `cacheLength, `oldZeroCount
      ensures ok ==> Valid() && cacheLength == 0 && Output() == head + Escape(0, done + pend + [RBSP_TRAILING_BYTE]).0
      ensures !ok ==> Fails(head + Escape(0, done + pend + [RBSP_TRAILING_BYTE]).0)
    {
      TrailingWritten(head, done, pend, Output(), oldZeroCount);
      assert done + (pend + [RBSP_TRAILING_BYTE]) == done + pend + [RBSP_TRAILING_BYTE];
      WriteOneBit();
      var r := ByteAlign(true);
      ok := r >= 0;
    }

    /** writeBits(1, 1, 1) with room in the cache: the one bit joins the pending bits. */
    method WriteOneBit()
      requires Valid() && cacheLength < 31
      modifies buf, `naluSize, `cache, `cacheLength, `oldZeroCount
      ensures Valid() && Pending() == old(Pending()) + BitsOf(1, 1)
      ensures naluSize == old(naluSize) && Output() == old(Output()) && oldZeroCount == old(oldZeroCount)
    {
      KeepBits(Pending(), 1, 1);
      assert Emit(oldZeroCount, [], true) == ([], oldZeroCount);
      var r := WriteBits(1, 1, true);
      // cannot fail: the bit stays in the cache
    }

    /** The writer just set up: nothing written, the cache empty. */
    predicate Fresh()
      reads this
    {
      Valid() && naluSize == 0 && cacheLength == 0 && oldZeroCount == 0
    }

    /** The start code, with writeBits(32, 1, 0): four bytes, no emulation prevention. */
    method WriteStartCode() returns (ok: bool)
      requires Fresh()
      modifies buf, `naluSize, `cache, `cacheLength, `oldZeroCount
      ensures ok ==> Valid() && cacheLength == 0 && oldZeroCount == 0 && Output() == NALU_START_CODE
      ensures !ok ==> Fails(NALU_START_CODE)
    {
      StartCodeBits();
      Power2Byte();
      assert Pending() == [];
      var r := WriteBits(32, 1, false);
      ok := r >= 0;
    }

    /** The NAL unit header byte, with writeBits(8, 6, 0): it stays in the cache. */
    method WriteHeaderByte(ghost head: seq<byte>)
      requires Valid() && cacheLength == 0 && oldZeroCount == 0 && Output() == head
      modifies buf, `naluSize, `cache, `cacheLength, `oldZeroCount
      ensures Holds(head, [], [NALU_TYPE_SEI])
    {
      ByteBits(NALU_TYPE_SEI);
      Power2Byte();
      assert Pending() == [];
      KeepBits([], NALU_TYPE_SEI as nat, 8);
      var r := WriteBits(8, NALU_TYPE_SEI as nat, false);
      // cannot fail: the byte stays in the cache
    }

    /**
     * The SEI message of WriteSeiNalu: the user data unregistered message
     * when the user data has at least 16 bytes (the UUID), nothing otherwise.
     */
    method WriteSeiMessage(userData: Option<seq<byte>>, ghost head: seq<byte>, ghost done: seq<byte>, ghost pend: seq<byte>)
      returns (ok: bool, ghost done': seq<byte>, ghost pend': seq<byte>)
      requires Holds(head, done, pend)
      requires userData.Some? ==> 8 * |userData.value| < 0x8000_0000
      modifies buf, `naluSize, `cache, `cacheLength, `oldZeroCount
      ensures done' + pend' == done + pend + SeiMessage(userData)
      ensures ok ==> Holds(head, done', pend')
      ensures !ok ==> Fails(head + Escape(0, done + pend + SeiMessage(userData)).0)
    {
      if userData.Some? && |userData.value| >= 16 {
        ok, done', pend' := WriteUserData(userData.value, head, done, pend);
      } else {
        assert done + pend + SeiMessage(userData) == done + pend;
        ok, done', pend' := true, done, pend;
      }
    }

    /**
     * A user data unregistered SEI message (section D.1.6 of ITU-T H.264):
     * payloadType 5, payloadSize, then the user data.
     */
    method WriteUserData(ud: seq<byte>, ghost head: seq<byte>, ghost done: seq<byte>, ghost pend: seq<byte>)
      returns (ok: bool, ghost done': seq<byte>, ghost pend': seq<byte>)
      requires Holds(head, done, pend) && 8 * |ud| < 0x8000_0000
      modifies buf, `naluSize, `cache, `cacheLength, `oldZeroCount
      ensures done' + pend' == done + pend + UserDataMessage(ud)
      ensures ok ==> Holds(head, done', pend')
      ensures !ok ==> Fails(head + Escape(0, done + pend + UserDataMessage(ud)).0)
    {
      ghost var l := done + pend;
      ghost var t := FFCoded(SEI_PAYLOAD_TYPE_USER_DATA_UNREGISTERED);
      ghost var z := FFCoded(|ud|);
      MessageParts(l, t, z, ud);
      ok, done', pend' := WriteFFCoded(SEI_PAYLOAD_TYPE_USER_DATA_UNREGISTERED, head, done, pend);
      if !ok {
        FailsExtend(head, l + t, z + ud);
        return false, l + UserDataMessage(ud), [];
      }
      ok, done', pend' := WriteFFCoded(|ud|, head, done', pend');
      if !ok {
        FailsExtend(head, l + t + z, ud);
        return false, l + UserDataMessage(ud), [];
      }
      var r;
      r, done', pend' := WriteSeiPayload(ud, head, done', pend');
      ok := r >= 0;
    }

    /**
     * The body of WriteSeiNalu after its set-up: the start code when
     * configured, the header, the SEI message and the trailing bits.
     */
    method WriteNalu(userData: Option<seq<byte>>) returns (ok: bool)
      requires Fresh()
      requires userData.Some? ==> 8 * |userData.value| < 0x8000_0000
      modifies buf, `naluSize, `cache, `cacheLength, `oldZeroCount
      ensures ok ==> Valid() && Output() == SeiNalu(naluPrefix, userData)
      ensures !ok ==> Fails(SeiNalu(naluPrefix, userData))
    {
      ghost var head: seq<byte> := [];
      ghost var nalu := SeiNalu(naluPrefix, userData);
      if naluPrefix {
        ok := WriteStartCode();
        if !ok {
          assert nalu[..buf.Length] == NALU_START_CODE[..buf.Length];
          return;
        }
        head := NALU_START_CODE;
      }
      assert nalu == head + Escape(0, NaluBytes(userData)).0;
      WriteHeaderByte(head);
      ghost var m := [NALU_TYPE_SEI] + SeiMessage(userData);
      assert NaluBytes(userData) == m + [RBSP_TRAILING_BYTE];
      ghost var done, pend;
      ok, done, pend := WriteSeiMessage(userData, head, [], [NALU_TYPE_SEI]);
      assert [] + [NALU_TYPE_SEI] + SeiMessage(userData) == m;
      if !ok {
        FailsExtend(head, m, [RBSP_TRAILING_BYTE]);
        return;
      }
      ok := WriteTrailingBits(head, done, pend);
    }

    /** WriteSeiNalu's set-up: the output buffer given, nothing written, the cache empty. */
    method Start(outBuf: array<byte>)
      modifies this
      ensures buf == outBuf && naluPrefix == old(naluPrefix)
      ensures naluSize == 0 && cache == Zeros(32) && cacheLength == 0 && oldZeroCount == 0
      ensures Fresh() && Output() == []
    {
      buf := outBuf;
      naluSize := 0;
      cache := Zeros(32);
      cacheLength := 0;
      oldZeroCount := 0;
    }

    /** `cache |= value >> shift`: the high bits of the value complete the cache. */
    method FillCache(value: nat, shift: nat)
      requires Valid() && 32 - cacheLength + shift <= 32
      modifies `cache
      ensures cache == old(Pending()) + BitsOf(value, 32 - cacheLength + shift)[..32 - cacheLength]
    {
      BitsOfSplit(value, 32 - cacheLength, shift);
      cache := cache[..cacheLength] + BitsOf(Shr(value, shift), 32 - cacheLength);
    }

    /**
     * One pass of the cache loop: the top byte of the cache out, then
     * `cache <<= 8`; pass i of the loop over the top `count` bytes of c0.
     */
    method WriteTopByte(ep: bool, ghost out0: seq<byte>, ghost zc0: nat, ghost c0: seq<bool>,
                        ghost count: nat, ghost i: nat) returns (ok: bool)
      requires |c0| == 32 && i < count <= 4 && cache == c0[8 * i..] + Zeros(8 * i)
      requires naluSize <= buf.Length && oldZeroCount <= 2
      requires var e := Emit(zc0, Pack(c0[..8 * count])[..i], ep);
        Output() == out0 + e.0 && oldZeroCount == e.1
      modifies buf, `naluSize, `cache, `oldZeroCount
      ensures naluSize <= buf.Length && oldZeroCount <= 2 && |cache| == 32
      ensures var e := Emit(zc0, Pack(c0[..8 * count])[..i + 1], ep);
        ok ==> Output() == out0 + e.0 && oldZeroCount == e.1 && cache == c0[8 * (i + 1)..] + Zeros(8 * (i + 1))
      ensures var full := out0 + Emit(zc0, Pack(c0[..8 * count]), ep).0;
        !ok ==> naluSize == buf.Length && |full| > buf.Length && Output() == full[..buf.Length]
    {
      ghost var s := Pack(c0[..8 * count]);
      PackAt(c0[..8 * count], i);
      CacheShift(c0, i, count);
      var write8 := ByteOf(cache[..8]);
      ok := WriteCacheByte(write8, ep);
      EmitStep(zc0, s, i, ep);
      if !ok {
        TruncatedPrefix(out0, Emit(zc0, s[..i + 1], ep).0, Emit(zc0, s, ep).0, buf.Length);
        return;
      }
      ShiftCache();
    }

    /** `cache <<= 8`. */
    method ShiftCache()
      requires |cache| == 32
      modifies `cache
      ensures cache == old(cache)[8..] + Zeros(8)
    {
      cache := cache[8..] + Zeros(8);
    }

    /** The cache and its length back to zero. */
    method ResetCache()
      modifies `cache, `cacheLength
      ensures cache == Zeros(32) && cacheLength == 0
    {
      cache := Zeros(32);
      cacheLength := 0;
    }

    /** `cache |= value << (cacheBits - remBits)`: the bits go in below the pending ones. */
    method AddBits(value: nat, n: nat)
      requires Valid() && cacheLength + n < 32
      modifies `cache, `cacheLength
      ensures Valid() && Pending() == old(Pending()) + BitsOf(value, n)
    {
      cache := cache[..cacheLength] + BitsOf(value, n) + Zeros(32 - cacheLength - n);
      cacheLength := cacheLength + n;
    }
  }

  /**
   * BEAVER_Writer_WriteSeiNalu: -1 for a missing writer, output buffer or
   * output size, or an empty buffer; otherwise 0 when the SEI NAL unit fits
   * the buffer, which then holds it, and -1 when it does not, the buffer
   * then holding as much of it as fits. The output size is set on success
   * only.
   */
  method WriteSeiNalu(writer: Writer?, userData: Option<seq<byte>>, outBuf: array?<byte>, outputSizeGiven: bool)
    returns (ret: int, outputSize: Option<nat>)
    requires userData.Some? ==> 8 * |userData.value| < 0x8000_0000
    modifies writer, outBuf
    ensures writer == null || outBuf == null || outBuf.Length == 0 || !outputSizeGiven ==>
      ret == -1 && outputSize == None &&
      (writer != null ==> unchanged(writer)) && (outBuf != null ==> unchanged(outBuf))
    ensures writer != null && outBuf != null && outBuf.Length > 0 && outputSizeGiven ==>
      var nalu := SeiNalu(writer.naluPrefix, userData);
      writer.buf == outBuf && writer.naluPrefix == old(writer.naluPrefix) &&
      (ret == 0 <==> |nalu| <= outBuf.Length) &&
      (ret == 0 ==> writer.naluSize == |nalu| && outBuf[..|nalu|] == nalu && outputSize == Some(|nalu|)) &&
      (ret != 0 ==> ret == -1 && writer.naluSize == outBuf.Length && outBuf[..] == nalu[..outBuf.Length] &&
                    outputSize == None)
  {
    if writer == null || outBuf == null || outBuf.Length == 0 || !outputSizeGiven {
      return -1, None;
    }
    writer.Start(outBuf);
    var ok := writer.WriteNalu(userData);
    if !ok {
      assert outBuf[..] == outBuf[..writer.naluSize];
      return -1, None;
    }
    outputSize := Some(writer.naluSize);
    ret := 0;
  }
}
