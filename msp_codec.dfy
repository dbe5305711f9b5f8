/** MSP (MultiWii Serial Protocol) frame codec: command identifiers, the
    decoded message record, the CRC-8/DVB-S2 checksum and the two frame
    encoders (MSPv1 with an XOR checksum, MSPv2 with the CRC). */
module MspCodec {

  /** The Rust `u16` used for commands, lengths and counters. */
  type uint16 = x: int | 0 <= x < 0x1_0000

  // Command identifiers used by the request walk.
  const MSG_IDENT: uint16 := 100
  const MSG_NAME: uint16 := 10
  const MSG_API_VERSION: uint16 := 1
  const MSG_FC_VARIANT: uint16 := 2
  const MSG_FC_VERSION: uint16 := 3
  const MSG_BOARD_INFO: uint16 := 4
  const MSG_BUILD_INFO: uint16 := 5
  const MSG_WP_GETINFO: uint16 := 20
  const MSG_RAW_GPS: uint16 := 106
  const MSG_ANALOG: uint16 := 110
  const MSG_DEBUGMSG: uint16 := 253
  const MSG_STATUS_EX: uint16 := 150
  const MSG_ANALOG2: uint16 := 0x2002
  const MSG_INAV_STATUS: uint16 := 0x2000
  const MSG_MISC2: uint16 := 0x203a

  // Framing bytes.
  const SYNC: bv8 := 0x24           // '$'
  const V1_MARK: bv8 := 0x4D        // 'M'
  const V2_MARK: bv8 := 0x58        // 'X'
  const TO_FC: bv8 := 0x3C          // '<', the direction the encoders write
  const FROM_FC: bv8 := 0x3E        // '>', a reply
  const ERROR_FROM_FC: bv8 := 0x21  // '!', an error reply

  /** Outcome of one decoded frame; `Fail` is the default value. */
  datatype MspRes = Ok | Crc | Dirn | Fail

  /** One decoded frame as sent over the channel. */
  datatype MspMsg = MspMsg(len: uint16, cmd: uint16, ok: MspRes, data: seq<bv8>)

  /** `MSPMsg::default()`: what the reader sends when the stream ends. */
  const DEFAULT_MSG: MspMsg := MspMsg(0, 0, Fail, [])

  // `ByteOf` and `Widen` stand for the casts `y as bv8` and `b as int`.
  // They are written as recursions so that the frame proofs reason about
  // byte values without the solver's bit-vector/integer conversions, which
  // made those proofs far more expensive.

  /** The byte whose unsigned value is `y`. */
  function ByteOf(y: nat): bv8
    requires y < 256
  {
    if y == 0 then 0 else ByteOf(y - 1) + 1
  }

  /** Truncating casts `(x & 0xff) as u8` and `(x >> 8) as u8`. */
  function Lo(x: nat): bv8 { ByteOf(x % 256) }
  function Hi(x: nat): bv8 { ByteOf((x / 256) % 256) }

  /** A byte widened to an integer (`*e as u16`). */
  function Widen(b: bv8): (x: nat)
    ensures x < 256
    decreases b as int, 0
  {
    if b == 0 then 0 else WidenCast(b - 1); Widen(b - 1) + 1
  }

  /** `Widen` is the unsigned value of the byte. */
  lemma {:induction false} WidenCast(b: bv8)
    ensures Widen(b) == b as int
    decreases b as int, 1
  {
    if b != 0 {
      WidenCast(b - 1);
    }
  }

  /** Widening undoes `ByteOf`. */
  lemma {:induction false} ByteValue(y: nat)
    requires y < 256
    ensures Widen(ByteOf(y)) == y
  {
    if y > 0 {
      ByteValue(y - 1);
      var b := ByteOf(y - 1);
      if b == 0xFF {
        WidenCast(b);
      }
      assert ByteOf(y) - 1 == b;
    }
  }

  /** The two bytes of a 16-bit value put it back together. */
  lemma LoHiSplit(x: uint16)
    ensures Widen(Lo(x)) + Widen(Hi(x)) * 256 == x
  {
    var lo, hi := x % 256, x / 256;
    assert x == lo + hi * 256 && hi < 256;
    assert hi % 256 == hi;
    ByteValue(lo);
    ByteValue(hi);
  }

  // ---------------------------------------------------------------------
  // CRC-8/DVB-S2 (polynomial 0xD5)

  /** One round of the CRC register: shift left, XOR the polynomial when the
      top bit falls out. */
  function Shift(c: bv8): bv8
  {
    if c & 0x80 != 0 then (c << 1) ^ 0xD5 else c << 1
  }

  /** `k` rounds of the register. */
  function Rounds(c: bv8, k: nat): bv8
    decreases k
  {
    if k == 0 then c else Rounds(Shift(c), k - 1)
  }

  /** Reference definition of `crc8_dvb_s2(c, a)`: fold `a` into `c`, then
      eight rounds. */
  function Crc8(c: bv8, a: bv8): bv8
  {
    Rounds(c ^ a, 8)
  }

  /** `crc8_dvb_s2`: the eight-round loop over the register. */
  method Crc8DvbS2(c: bv8, a: bv8) returns (r: bv8)
    ensures r == Crc8(c, a)
  {
    r := c ^ a;
    var i := 0;
    while i < 8
      invariant 0 <= i <= 8
      invariant Rounds(r, 8 - i) == Crc8(c, a)
    {
      if r & 0x80 != 0 {
        r := (r << 1) ^ 0xD5;
      } else {
        r := r << 1;
      }
      i := i + 1;
    }
  }

  /** The CRC folded over `s` in order, starting from `c`. */
  function CrcFold(c: bv8, s: seq<bv8>): bv8
    decreases |s|
  {
    if s == [] then c else CrcFold(Crc8(c, s[0]), s[1..])
  }

  /** The XOR checksum of MSPv1 folded over `s`, starting from `c`. */
  function XorFold(c: bv8, s: seq<bv8>): bv8
    decreases |s|
  {
    if s == [] then c else XorFold(c ^ s[0], s[1..])
  }

  lemma {:induction false} CrcFoldAppend(c: bv8, a: seq<bv8>, b: seq<bv8>)
    ensures CrcFold(c, a + b) == CrcFold(CrcFold(c, a), b)
    decreases |a|
  {
    if a == [] {
      assert a + b == b;
    } else {
      assert (a + b)[1..] == a[1..] + b;
      CrcFoldAppend(Crc8(c, a[0]), a[1..], b);
    }
  }

  lemma {:induction false} XorFoldAppend(c: bv8, a: seq<bv8>, b: seq<bv8>)
    ensures XorFold(c, a + b) == XorFold(XorFold(c, a), b)
    decreases |a|
  {
    if a == [] {
      assert a + b == b;
    } else {
      assert (a + b)[1..] == a[1..] + b;
      XorFoldAppend(c ^ a[0], a[1..], b);
    }
  }

  /** The two cases of a register round. */
  lemma ShiftCases(c: bv8)
    ensures c & 0x80 != 0 ==> Shift(c) == (c << 1) ^ 0xD5
    ensures c & 0x80 == 0 ==> Shift(c) == c << 1
  {
  }

  /** The register round is linear over GF(2) ... */
  lemma ShiftLinear(x: bv8, y: bv8)
    ensures Shift(x ^ y) == Shift(x) ^ Shift(y)
  {
    ShiftCases(x);
    ShiftCases(y);
    ShiftCases(x ^ y);
    assert (x ^ y) << 1 == (x << 1) ^ (y << 1);
    assert (x ^ y) & 0x80 == (x & 0x80) ^ (y & 0x80);
  }

  /** ... and only the zero register shifts to zero. */
  lemma ShiftZero(x: bv8)
    ensures Shift(x) == 0 <==> x == 0
  {
  }

  /** CRC rounds never map two registers to the same value. */
  lemma {:induction false} RoundsInjective(x: bv8, y: bv8, k: nat)
    ensures Rounds(x, k) == Rounds(y, k) <==> x == y
    decreases k
  {
    if k > 0 {
      ShiftLinear(x, y);
      ShiftZero(x ^ y);
      RoundsInjective(Shift(x), Shift(y), k - 1);
    }
  }

  /** A different input byte always gives a different CRC ... */
  lemma Crc8InjectiveInByte(c: bv8, a: bv8, b: bv8)
    requires a != b
    ensures Crc8(c, a) != Crc8(c, b)
  {
    assert c ^ a != c ^ b;
    RoundsInjective(c ^ a, c ^ b, 8);
  }

  /** ... and so does a different incoming register. */
  lemma Crc8InjectiveInRegister(c: bv8, d: bv8, a: bv8)
    requires c != d
    ensures Crc8(c, a) != Crc8(d, a)
  {
    assert c ^ a != d ^ a;
    RoundsInjective(c ^ a, d ^ a, 8);
  }

  /** Folding the same bytes from different registers ends in different
      registers. */
  lemma {:induction false} CrcFoldSeedInjective(c: bv8, d: bv8, s: seq<bv8>)
    requires c != d
    ensures CrcFold(c, s) != CrcFold(d, s)
    decreases |s|
  {
    if s != [] {
      Crc8InjectiveInRegister(c, d, s[0]);
      CrcFoldSeedInjective(Crc8(c, s[0]), Crc8(d, s[0]), s[1..]);
    }
  }

  /** A sequence around its `i`-th element, before and after that element
      is replaced. */
  lemma SplitAt(a: seq<bv8>, i: nat, x: bv8)
    requires i < |a|
    ensures a == a[..i] + [a[i]] + a[i + 1..]
    ensures a[i := x] == a[..i] + [x] + a[i + 1..]
  {
  }

  /** The CRC detects every single-byte change: two byte strings of equal
      length that differ at exactly one position fold to different CRCs. */
  lemma CrcFoldDetectsOneByte(c: bv8, a: seq<bv8>, i: nat, x: bv8)
    requires i < |a| && x != a[i]
    ensures CrcFold(c, a[i := x]) != CrcFold(c, a)
  {
    var pre, post := a[..i], a[i + 1..];
    SplitAt(a, i, x);
    CrcFoldAppend(c, pre + [a[i]], post);
    CrcFoldAppend(c, pre + [x], post);
    CrcFoldAppend(c, pre, [a[i]]);
    CrcFoldAppend(c, pre, [x]);
    var r := CrcFold(c, pre);
    Crc8InjectiveInByte(r, x, a[i]);
    CrcFoldSeedInjective(Crc8(r, x), Crc8(r, a[i]), post);
  }

  /** Folding the same bytes into different XOR seeds ends in different
      checksums. */
  lemma {:induction false} XorFoldSeedInjective(c: bv8, d: bv8, s: seq<bv8>)
    requires c != d
    ensures XorFold(c, s) != XorFold(d, s)
    decreases |s|
  {
    if s != [] {
      assert c ^ s[0] != d ^ s[0];
      XorFoldSeedInjective(c ^ s[0], d ^ s[0], s[1..]);
    }
  }

  /** Folding past one byte `y` in the middle of a sequence. */
  lemma XorFoldAround(c: bv8, pre: seq<bv8>, y: bv8, post: seq<bv8>)
    ensures XorFold(c, pre + [y] + post) == XorFold(XorFold(c, pre) ^ y, post)
  {
    XorFoldAppend(c, pre + [y], post);
    XorFoldAppend(c, pre, [y]);
    assert [y][1..] == [];
  }

  /** Two bytes that differ, XORed into the same register, give folds that
      differ. */
  lemma XorFoldDistinctBytes(r: bv8, x: bv8, y: bv8, post: seq<bv8>)
    requires x != y
    ensures XorFold(r ^ x, post) != XorFold(r ^ y, post)
  {
    assert r ^ x != r ^ y;
    XorFoldSeedInjective(r ^ x, r ^ y, post);
  }

  /** Changing one byte between the same prefix and suffix changes the XOR
      checksum ... */
  lemma XorFoldDetectsAt(c: bv8, pre: seq<bv8>, x: bv8, y: bv8, post: seq<bv8>)
    requires x != y
    ensures XorFold(c, pre + [x] + post) != XorFold(c, pre + [y] + post)
  {
    XorFoldAround(c, pre, x, post);
    XorFoldAround(c, pre, y, post);
    XorFoldDistinctBytes(XorFold(c, pre), x, y, post);
  }

  /** ... so the XOR checksum also detects every single-byte change. */
  lemma XorFoldDetectsOneByte(c: bv8, a: seq<bv8>, i: nat, x: bv8)
    requires i < |a| && x != a[i]
    ensures XorFold(c, a[i := x]) != XorFold(c, a)
  {
    SplitAt(a, i, x);
    XorFoldDetectsAt(c, a[..i], x, a[i], a[i + 1..]);
  }

  /** The eight rounds of `Crc8` written out. */
  lemma Crc8Unrolled(c: bv8, a: bv8)
    ensures Crc8(c, a) == Shift(Shift(Shift(Shift(Shift(Shift(Shift(Shift(c ^ a))))))))
  {
    var x := c ^ a;
    assert Rounds(x, 8) == Rounds(Shift(x), 7);
    assert Rounds(Shift(x), 7) == Rounds(Shift(Shift(x)), 6);
    assert Rounds(Shift(Shift(x)), 6) == Rounds(Shift(Shift(Shift(x))), 5);
    assert Rounds(Shift(Shift(Shift(x))), 5) == Rounds(Shift(Shift(Shift(Shift(x)))), 4);
    assert Rounds(Shift(Shift(Shift(Shift(x)))), 4) == Rounds(Shift(Shift(Shift(Shift(Shift(x))))), 3);
  }

  /** The catalogue check value of CRC-8/DVB-S2: the CRC of the ASCII digits
      "123456789" folded from zero is 0xBC; a zero byte into a zero register
      gives zero. */
  lemma CrcCheckValue()
    ensures CrcFold(0, [0x31, 0x32, 0x33, 0x34, 0x35, 0x36, 0x37, 0x38, 0x39]) == 0xBC
    ensures Crc8(0, 0) == 0
  {
    Crc8Unrolled(0x00, 0x00);
    Crc8Unrolled(0x00, 0x31);
    assert Crc8(0x00, 0x31) == 0x23;
    Crc8Unrolled(0x23, 0x32);
    assert Crc8(0x23, 0x32) == 0x87;
    Crc8Unrolled(0x87, 0x33);
    assert Crc8(0x87, 0x33) == 0xE7;
    Crc8Unrolled(0xE7, 0x34);
    assert Crc8(0xE7, 0x34) == 0x8A;
    Crc8Unrolled(0x8A, 0x35);
    assert Crc8(0x8A, 0x35) == 0x64;
    Crc8Unrolled(0x64, 0x36);
    assert Crc8(0x64, 0x36) == 0xB0;
    Crc8Unrolled(0xB0, 0x37);
    assert Crc8(0xB0, 0x37) == 0xBB;
    Crc8Unrolled(0xBB, 0x38);
    assert Crc8(0xBB, 0x38) == 0x45;
    Crc8Unrolled(0x45, 0x39);
    assert Crc8(0x45, 0x39) == 0xBC;
  }

  // ---------------------------------------------------------------------
  // Encoders

  /** Bytes 3 .. of an MSPv2 frame covered by the CRC: flags 0, command and
      payload length little-endian (the length truncated to 16 bits), then
      the payload. */
  function Msp2Body(cmd: uint16, payload: seq<bv8>): seq<bv8>
  {
    [0, Lo(cmd), Hi(cmd), Lo(|payload|), Hi(|payload|)] + payload
  }

  /** The MSPv2 request frame: `$X<`, the body, and the CRC folded from 0
      over the body. */
  function Msp2Frame(cmd: uint16, payload: seq<bv8>): seq<bv8>
  {
    var body := Msp2Body(cmd, payload);
    [SYNC, V2_MARK, TO_FC] + body + [CrcFold(0, body)]
  }

  /** Bytes 3 .. of an MSPv1 frame covered by the checksum: the low byte of
      the payload length and of the command, then the payload. */
  function MspBody(cmd: uint16, payload: seq<bv8>): seq<bv8>
  {
    [Lo(|payload|), Lo(cmd)] + payload
  }

  /** The MSPv1 request frame: `$M<`, the body, and the XOR of the body. */
  function MspFrame(cmd: uint16, payload: seq<bv8>): seq<bv8>
  {
    var body := MspBody(cmd, payload);
    [SYNC, V1_MARK, TO_FC] + body + [XorFold(0, body)]
  }

  /** Byte positions of an MSPv2 frame. */
  lemma Msp2FrameLayout(cmd: uint16, payload: seq<bv8>)
    ensures var v := Msp2Frame(cmd, payload);
      && |v| == |payload| + 9
      && v[..4] == [SYNC, V2_MARK, TO_FC, 0]
      && v[4] == Lo(cmd) && v[5] == Hi(cmd)
      && v[6] == Lo(|payload|) && v[7] == Hi(|payload|)
      && v[8..|payload| + 8] == payload
      && v[|payload| + 8] == CrcFold(0, v[3..|payload| + 8])
  {
    var v := Msp2Frame(cmd, payload);
    assert v[3..|payload| + 8] == Msp2Body(cmd, payload);
  }

  /** Byte positions of an MSPv1 frame. */
  lemma MspFrameLayout(cmd: uint16, payload: seq<bv8>)
    ensures var v := MspFrame(cmd, payload);
      && |v| == |payload| + 6
      && v[..3] == [SYNC, V1_MARK, TO_FC]
      && v[3] == Lo(|payload|) && v[4] == Lo(cmd)
      && v[5..|payload| + 5] == payload
      && v[|payload| + 5] == XorFold(0, v[3..|payload| + 5])
  {
    var v := MspFrame(cmd, payload);
    assert v[3..|payload| + 5] == MspBody(cmd, payload);
  }

  /** The checksum loop of `encode_msp2`: `crc8_dvb_s2` over each byte in
      turn, from 0. */
  method FoldCrc(s: seq<bv8>) returns (crc: bv8)
    ensures crc == CrcFold(0, s)
  {
    crc := 0;
    for i := 0 to |s|
      invariant crc == CrcFold(0, s[..i])
    {
      CrcFoldAppend(0, s[..i], [s[i]]);
      assert s[..i + 1] == s[..i] + [s[i]];
      crc := Crc8DvbS2(crc, s[i]);
    }
    assert s[..|s|] == s;
  }

  /** The checksum loop of `encode_msp`: XOR each byte into `seed`. */
  method FoldXor(seed: bv8, s: seq<bv8>) returns (crc: bv8)
    ensures crc == XorFold(seed, s)
  {
    crc := seed;
    for i := 0 to |s|
      invariant crc == XorFold(seed, s[..i])
    {
      XorFoldAppend(seed, s[..i], [s[i]]);
      assert s[..i + 1] == s[..i] + [s[i]];
      crc := crc ^ s[i];
    }
    assert s[..|s|] == s;
  }

  /** `encode_msp2`: a buffer of `paylen + 9` bytes holding the header, the
      payload and a checksum slot; the CRC is folded over bytes
      3 .. paylen + 7 and written into the slot. */
  method EncodeMsp2(cmd: uint16, payload: seq<bv8>) returns (v: seq<bv8>)
    ensures v == Msp2Frame(cmd, payload)
  {
    var paylen := |payload|;
    var body := [0, Lo(cmd), Hi(cmd), Lo(paylen), Hi(paylen)] + payload;
    v := [SYNC, V2_MARK, TO_FC] + body + [0];
    assert v[3..paylen + 8] == body;
    var crc := FoldCrc(v[3..paylen + 8]);
    v := v[paylen + 8 := crc];
    assert v == [SYNC, V2_MARK, TO_FC] + body + [crc];
  }

  /** `encode_msp`: a buffer of `paylen + 6` bytes holding the header, the
      payload and a checksum slot; the checksum starts from length ^ command,
      XORs in each payload byte and is written into the slot. */
  method EncodeMsp(cmd: uint16, payload: seq<bv8>) returns (v: seq<bv8>)
    ensures v == MspFrame(cmd, payload)
  {
    var paylen := |payload|;
    var body := [Lo(paylen), Lo(cmd)] + payload;
    v := [SYNC, V1_MARK, TO_FC] + body + [0];
    var crc := FoldXor(v[3] ^ v[4], payload);
    assert XorFold(0, body) == crc by {
      assert body[1..][1..] == payload;
    }
    v := v[paylen + 5 := crc];
    assert v == [SYNC, V1_MARK, TO_FC] + body + [crc];
  }
}
