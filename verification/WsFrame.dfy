/** The WebSocket frame codec (sections 5.2 and 5.3 of RFC 6455). */
module WsFrame {
  import opened Bits
  import opened Bytes
  import opened Strings

  datatype OpCode = Continuation | Text | Binary | Close | Ping | Pong {
    function Code(): byte {
      match this
      case Continuation => 0x0
      case Text => 0x1
      case Binary => 0x2
      case Close => 0x8
      case Ping => 0x9
      case Pong => 0xA
    }

    predicate IsControl() {
      Code() >= 0x8
    }
  }

  predicate IsValidOpCode(code: byte) {
    code in {0x0, 0x1, 0x2, 0x8, 0x9, 0xA}
  }

  function OpCodeOf(code: byte): (op: OpCode)
    requires IsValidOpCode(code)
    ensures op.Code() == code
  {
    match code
    case 0 => Continuation
    case 1 => Text
    case 2 => Binary
    case 8 => Close
    case 9 => Ping
    case _ => Pong
  }

  /** The output structure of ParseHeader, with the defaults its declaration gives. */
  datatype Header = Header(fin: bool, opcode: OpCode, masked: bool, headerLen: nat, payloadLen: nat, maskKey: nat) {
    function TotalSize(): nat {
      headerLen + payloadLen
    }
  }

  const EMPTY_HEADER := Header(false, Text, false, 0, 0, 0)
  /** The value of payloadLen that marks a malformed header. */
  const UINT64_MAX: nat := TWO_64 - 1

  // ---- what the wire format means --------------------------------------------------------------------------

  datatype Verdict = Incomplete | Malformed | Accepted(hdr: Header)

  function ExtBytes(len7: nat): nat {
    if len7 == 126 then 2 else if len7 == 127 then 8 else 0
  }

  /** Non-minimal lengths and lengths of 2^32 or more are refused. */
  predicate LengthAllowed(ext: nat, len: nat) {
    && (ext == 2 ==> 126 <= len)
    && (ext == 8 ==> 65536 <= len < TWO_32)
  }

  function HeaderSize(b1: byte): nat {
    2 + ExtBytes(b1 % 128) + if b1 >= 128 then 4 else 0
  }

  function ExtSize(b1: byte): nat {
    ExtBytes(b1 % 128)
  }

  /** The number in a length field: seven bits, or a big-endian number of two or eight bytes. */
  function FieldValue(field: seq<byte>): nat
    requires |field| > 0 && |field| == 1 + ExtSize(field[0])
  {
    if |field| == 3 then U16(field[1..])
    else if |field| == 9 then U64(field[1..])
    else field[0] % 128
  }

  function LengthOf(data: seq<byte>): nat
    requires |data| >= 2 && |data| >= HeaderSize(data[1])
  {
    FieldValue(data[1..2 + ExtSize(data[1])])
  }

  function KeyOf(data: seq<byte>): (key: nat)
    requires |data| >= 2 && |data| >= HeaderSize(data[1])
    ensures key < TWO_32
  {
    if data[1] >= 128 then U32(data[2 + ExtSize(data[1])..HeaderSize(data[1])]) else 0
  }

  /** The verdict on the header at the front of a buffer, read off the frame diagram of section 5.2. */
  function Decode(data: seq<byte>): (v: Verdict)
    ensures v.Accepted? ==>
      && 2 <= v.hdr.headerLen <= |data|
      && v.hdr.payloadLen < TWO_32
      && v.hdr.maskKey < TWO_32
  {
    if |data| < 2 then Incomplete
    else if data[0] / 16 % 8 != 0 || !IsValidOpCode(data[0] % 16) then Malformed
    else if |data| < HeaderSize(data[1]) then Incomplete
    else if !LengthAllowed(ExtSize(data[1]), LengthOf(data)) then Malformed
    else Accepted(Header(data[0] >= 128, OpCodeOf(data[0] % 16), data[1] >= 128,
                         HeaderSize(data[1]), LengthOf(data), KeyOf(data)))
  }

  /** Prefix stability: a verdict, once given, survives any bytes that arrive later. */
  lemma DecodeStable(data: seq<byte>, more: seq<byte>)
    requires Decode(data) != Incomplete
    ensures Decode(data + more) == Decode(data)
  {
    var all := data + more;
    assert all[0] == data[0] && all[1] == data[1];
    var ext, n := ExtSize(data[1]), HeaderSize(data[1]);
    if |data| >= n {
      assert all[2..n] == data[2..n];
      assert all[2..2 + ext] == data[2..2 + ext];
      assert all[2 + ext..n] == data[2 + ext..n];
    }
  }

  // ---- encoding ----------------------------------------------------------------------------------------------

  function FirstByte(fin: bool, op: OpCode): byte {
    op.Code() + if fin then 128 else 0
  }

  /** The length field in its shortest form; `mask` is 128 when the frame is masked and 0 otherwise. */
  function LengthField(mask: nat, len: nat): seq<byte>
    requires mask == 0 || mask == 128
  {
    if len <= 125 then [mask + len]
    else if len <= 65535 then [mask + 126] + U16Bytes(len)
    else [mask + 127] + U64Bytes(len)
  }

  function HeaderBytes(fin: bool, op: OpCode, key: Option<nat>, len: nat): seq<byte> {
    [FirstByte(fin, op)]
    + LengthField(if key.Some? then 128 else 0, len)
    + if key.Some? then U32Bytes(key.value) else []
  }

  /** A server-to-client frame. */
  function ServerFrame(fin: bool, op: OpCode, payload: seq<byte>): seq<byte> {
    HeaderBytes(fin, op, None, |payload|) + payload
  }

  /** A client-to-server frame: the same header with the mask bit, the key, and the masked payload. */
  function ClientFrame(fin: bool, op: OpCode, key: nat, payload: seq<byte>): seq<byte> {
    HeaderBytes(fin, op, Some(key), |payload|) + Masked(payload, key)
  }

  function HeaderOf(fin: bool, op: OpCode, key: Option<nat>, len: nat): Header {
    Header(fin, op, key.Some?, |HeaderBytes(fin, op, key, len)|, len, if key.Some? then key.value else 0)
  }

  /**
   * The parser inverts the header encoder in all three length forms, whatever follows the header, exactly for
   * lengths below 2^32; a header that announces more is refused.
   */
  lemma DecodeEncoded(fin: bool, op: OpCode, key: Option<nat>, len: nat, rest: seq<byte>)
    requires key.Some? ==> key.value < TWO_32
    requires len < TWO_64
    ensures var v := Decode(HeaderBytes(fin, op, key, len) + rest);
            if len < TWO_32 then v == Accepted(HeaderOf(fin, op, key, len)) else v == Malformed
  {
    EncodedLayout(fin, op, key, len, rest);
    EncodedLength(if key.Some? then 128 else 0, len);
    FirstByteFields(fin, op);
    if key.Some? {
      U32Inverse(key.value);
    }
  }

  lemma FirstByteFields(fin: bool, op: OpCode)
    ensures var b := FirstByte(fin, op);
            && b / 16 % 8 == 0
            && IsValidOpCode(b % 16) && OpCodeOf(b % 16) == op
            && (b >= 128 <==> fin)
  {
  }

  lemma EncodedLayout(fin: bool, op: OpCode, key: Option<nat>, len: nat, rest: seq<byte>)
    ensures var data := HeaderBytes(fin, op, key, len) + rest;
            var field := LengthField(if key.Some? then 128 else 0, len);
            var ext := ExtSize(field[0]);
            && |field| == 1 + ext
            && |HeaderBytes(fin, op, key, len)| == HeaderSize(field[0])
            && |data| == HeaderSize(field[0]) + |rest|
            && data[0] == FirstByte(fin, op)
            && data[1] == field[0]
            && (field[0] >= 128 <==> key.Some?)
            && data[1..2 + ext] == field
            && (key.Some? ==> data[2 + ext..HeaderSize(field[0])] == U32Bytes(key.value))
  {
    var field := LengthField(if key.Some? then 128 else 0, len);
    var keyBytes := if key.Some? then U32Bytes(key.value) else [];
    var data := HeaderBytes(fin, op, key, len) + rest;
    assert data == [FirstByte(fin, op)] + field + keyBytes + rest;
    assert data[1..1 + |field|] == field;
    assert data[1 + |field|..1 + |field| + |keyBytes|] == keyBytes;
  }

  lemma EncodedLength(mask: nat, len: nat)
    requires mask == 0 || mask == 128
    requires len < TWO_64
    ensures var field := LengthField(mask, len);
            && |field| == 1 + ExtSize(field[0])
            && FieldValue(field) == len
            && (LengthAllowed(ExtSize(field[0]), len) <==> len < TWO_32)
  {
    var field := LengthField(mask, len);
    assert field[0] % 128 == field[0] - mask;
    if 125 < len <= 65535 {
      assert field[1..] == U16Bytes(len);
      U16Inverse(len);
    } else if 65535 < len {
      assert field[1..] == U64Bytes(len);
      U64Inverse(len);
    }
  }

  /** The converse: an accepted field is the shortest encoding of its number. */
  lemma FieldIsShortest(field: seq<byte>)
    requires |field| > 0 && |field| == 1 + ExtSize(field[0])
    requires LengthAllowed(ExtSize(field[0]), FieldValue(field))
    ensures LengthField(if field[0] >= 128 then 128 else 0, FieldValue(field)) == field
  {
    if |field| == 3 {
      U16BytesInverse(field[1..]);
    } else if |field| == 9 {
      U64BytesInverse(field[1..]);
    }
  }

  /** Only canonical headers are accepted: the bytes of an accepted header are the encoding of its fields. */
  lemma AcceptedIsCanonical(data: seq<byte>)
    requires Decode(data).Accepted?
    ensures var h := Decode(data).hdr;
            && h.headerLen <= |data|
            && data[..h.headerLen] == HeaderBytes(h.fin, h.opcode, if h.masked then Some(h.maskKey) else None, h.payloadLen)
  {
    hide FieldValue, LengthField, LengthAllowed, FirstByte, IsValidOpCode, OpCodeOf, U32, U32Bytes;
    var h := Decode(data).hdr;
    var field, keyBytes := data[1..2 + ExtSize(data[1])], data[2 + ExtSize(data[1])..h.headerLen];
    FieldIsShortest(field);
    FirstByteBack(data[0]);
    if h.masked {
      U32BytesInverse(keyBytes, 0);
    }
    assert data[..h.headerLen] == [data[0]] + field + keyBytes;
  }

  lemma FirstByteBack(b: byte)
    requires b / 16 % 8 == 0 && IsValidOpCode(b % 16)
    ensures FirstByte(b >= 128, OpCodeOf(b % 16)) == b
  {
  }

  // ---- masking -----------------------------------------------------------------------------------------------

  function XorBytes(a: byte, b: byte): byte {
    assert Pow2(8) == 256;
    Xor(a, b, 8)
  }

  function Masked(payload: seq<byte>, key: nat): (m: seq<byte>)
    ensures |m| == |payload|
  {
    seq(|payload|, i requires 0 <= i < |payload| => XorBytes(payload[i], U32Bytes(key)[i % 4]))
  }

  /** Masking is an involution for every key and length. */
  lemma MaskedTwice(payload: seq<byte>, key: nat)
    ensures Masked(Masked(payload, key), key) == payload
  {
    forall i | 0 <= i < |payload|
      ensures Masked(Masked(payload, key), key)[i] == payload[i]
    {
      assert Pow2(8) == 256;
      XorTwice(payload[i], U32Bytes(key)[i % 4], 8);
    }
  }

  /** Section 5.3: bit k of byte i is the sum modulo two of its bit and that of byte i modulo four of the key. */
  lemma MaskedBits(payload: seq<byte>, key: nat, i: nat, k: nat)
    requires i < |payload| && k < 8
    ensures BitsOf(Masked(payload, key)[i], 8)[k] == (BitsOf(payload[i], 8)[k] as int + BitsOf(U32Bytes(key)[i % 4], 8)[k]) % 2
  {
    hide BitsOf, Xor;
    XorBitwise(payload[i], U32Bytes(key)[i % 4], 8, k);
  }

  lemma AllMaskedBits(payload: seq<byte>, key: nat)
    ensures forall i, k :: 0 <= i < |payload| && 0 <= k < 8 ==>
              BitsOf(Masked(payload, key)[i], 8)[k]
              == (BitsOf(payload[i], 8)[k] as int + BitsOf(U32Bytes(key)[i % 4], 8)[k]) % 2
  {
    hide BitsOf, Masked;
    forall i, k | 0 <= i < |payload| && 0 <= k < 8
      ensures BitsOf(Masked(payload, key)[i], 8)[k]
              == (BitsOf(payload[i], 8)[k] as int + BitsOf(U32Bytes(key)[i % 4], 8)[k]) % 2
    {
      MaskedBits(payload, key, i, k);
    }
  }

  /** The examples of section 5.7. */
  lemma ExamplesOfSection57()
    ensures ServerFrame(true, Text, Ascii("Hello")) == [0x81, 0x05, 0x48, 0x65, 0x6C, 0x6C, 0x6F]
    ensures ClientFrame(true, Text, 0x37FA213D, Ascii("Hello"))
            == [0x81, 0x85, 0x37, 0xFA, 0x21, 0x3D, 0x7F, 0x9F, 0x4D, 0x51, 0x58]
    ensures ServerFrame(false, Text, Ascii("Hel")) == [0x01, 0x03, 0x48, 0x65, 0x6C]
    ensures ServerFrame(true, Continuation, Ascii("lo")) == [0x80, 0x02, 0x6C, 0x6F]
    ensures ServerFrame(true, Ping, Ascii("Hello")) == [0x89, 0x05, 0x48, 0x65, 0x6C, 0x6C, 0x6F]
    ensures ClientFrame(true, Pong, 0x37FA213D, Ascii("Hello"))
            == [0x8A, 0x85, 0x37, 0xFA, 0x21, 0x3D, 0x7F, 0x9F, 0x4D, 0x51, 0x58]
  {
    hide XorBytes, Masked;
    HelloBytes();
    Shifts(0x37FA213D);
    MaskedHello();
  }

  /** The last two: lengths of 256 and 65536. */
  lemma LongExamplesOfSection57()
    ensures HeaderBytes(true, Binary, None, 256) == [0x82, 0x7E, 0x01, 0x00]
    ensures HeaderBytes(true, Binary, None, 65536) == [0x82, 0x7F, 0x00, 0x00, 0x00, 0x00, 0x00, 0x01, 0x00, 0x00]
  {
    hide U64Bytes;
    Shifts(256);
    LongForm();
  }

  lemma HelloBytes()
    ensures Ascii("Hello") == [0x48, 0x65, 0x6C, 0x6C, 0x6F]
    ensures Ascii("Hel") == [0x48, 0x65, 0x6C] && Ascii("lo") == [0x6C, 0x6F]
  {
  }

  lemma MaskedHello()
    ensures Masked(Ascii("Hello"), 0x37FA213D) == [0x7F, 0x9F, 0x4D, 0x51, 0x58]
  {
    hide XorBytes, U32Bytes;
    HelloBytes();
    KeyOfExample();
    XorsOfHello();
  }

  lemma XorsOfHello()
    ensures XorBytes(0x48, 0x37) == 0x7F && XorBytes(0x65, 0xFA) == 0x9F && XorBytes(0x6C, 0x21) == 0x4D
    ensures XorBytes(0x6C, 0x3D) == 0x51 && XorBytes(0x6F, 0x37) == 0x58
  {
    hide Xor;
    XorEight((0, 1, 0, 0), (1, 0, 0, 0), (0, 0, 1, 1), (0, 1, 1, 1));
    XorEight((0, 1, 1, 0), (0, 1, 0, 1), (1, 1, 1, 1), (1, 0, 1, 0));
    XorEight((0, 1, 1, 0), (1, 1, 0, 0), (0, 0, 1, 0), (0, 0, 0, 1));
    XorEight((0, 1, 1, 0), (1, 1, 0, 0), (0, 0, 1, 1), (1, 1, 0, 1));
    XorEight((0, 1, 1, 0), (1, 1, 1, 1), (0, 0, 1, 1), (0, 1, 1, 1));
  }

  type Nibble = (bit, bit, bit, bit)

  function Of(n: Nibble): nat {
    n.0 as int * 8 + n.1 as int * 4 + n.2 as int * 2 + n.3
  }

  function XorNibble(x: Nibble, y: Nibble): Nibble {
    (if x.0 == y.0 then 0 else 1, if x.1 == y.1 then 0 else 1, if x.2 == y.2 then 0 else 1, if x.3 == y.3 then 0 else 1)
  }

  lemma XorFour(a: nat, b: nat, n: nat, x: Nibble, y: Nibble)
    ensures Xor(a * 16 + Of(x), b * 16 + Of(y), n + 4) == Xor(a, b, n) * 16 + Of(XorNibble(x, y))
  {
    hide Xor;
    XorPush(a, b, n, x.0, y.0);
    XorPush(a * 2 + x.0, b * 2 + y.0, n + 1, x.1, y.1);
    XorPush((a * 2 + x.0) * 2 + x.1, (b * 2 + y.0) * 2 + y.1, n + 2, x.2, y.2);
    XorPush(((a * 2 + x.0) * 2 + x.1) * 2 + x.2, ((b * 2 + y.0) * 2 + y.1) * 2 + y.2, n + 3, x.3, y.3);
  }

  lemma XorEight(x: Nibble, x': Nibble, y: Nibble, y': Nibble)
    ensures XorBytes(Of(x) * 16 + Of(x'), Of(y) * 16 + Of(y')) == Of(XorNibble(x, y)) * 16 + Of(XorNibble(x', y'))
  {
    hide Xor;
    XorFour(0, 0, 0, x, y);
    XorFour(Of(x), Of(y), 4, x', y');
    XorPush(0, 0, 0, 0, 0);
  }

  lemma KeyOfExample()
    ensures U32Bytes(0x37FA213D) == [0x37, 0xFA, 0x21, 0x3D]
  {
    Shifts(0x37FA213D);
  }

  lemma LongForm()
    ensures U64Bytes(65536) == [0, 0, 0, 0, 0, 1, 0, 0]
  {
    Shifts(65536);
    Shifts(0);
    Shifts(ShiftRight(65536, 4));
  }

  // ---- the code ------------------------------------------------------------------------------------------------

  /** The number the first k of four bytes denote. */
  ghost function Leading(s: seq<byte>, k: nat): nat
    requires k <= |s|
  {
    if k == 0 then 0 else Leading(s, k - 1) * 256 + s[k - 1]
  }

  /** The eight-byte length form: the four high bytes must be zero, the low ones are shifted in. */
  method ReadLongLength(data: seq<byte>) returns (ok: bool, len: nat)
    requires |data| >= 10
    ensures ok <==> U64(data[2..10]) < TWO_32
    ensures ok ==> len == U64(data[2..10])
  {
    ghost var high, low := data[2..10][..4], data[2..10][4..];
    assert forall k :: 0 <= k < 4 ==> high[k] == data[2 + k] && low[k] == data[6 + k];
    len := 0;
    for i := 0 to 4
      invariant forall k :: 0 <= k < i ==> high[k] == 0
    {
      if data[2 + i] != 0 {
        assert high[i] == data[2 + i];
        assert U32(high) > 0;
        return false, 0;
      }
    }
    for i := 4 to 8
      invariant len == Leading(low, i - 4)
    {
      assert low[i - 4] == data[6 + (i - 4)];
      len := len * 256 + data[2 + i];
    }
    ok := true;
    assert Leading(low, 4) == U32(low) by {
      assert Leading(low, 2) == low[0] as int * 256 + low[1];
    }
  }

  lemma KeyBytes(data: seq<byte>, off: nat)
    requires off + 4 <= |data|
    ensures U32(data[off..off + 4])
            == data[off] as int * 0x100_0000 + data[off + 1] as int * 0x1_0000 + data[off + 2] as int * 0x100 + data[off + 3]
  {
    assert data[off..off + 4] == [data[off], data[off + 1], data[off + 2], data[off + 3]];
  }

  /**
   * Parse the header at the front of a buffer.  A positive result is the size of the header; zero with
   * `payloadLen == UINT64_MAX` reports a malformed header, zero otherwise asks for more bytes.
   */
  method ParseHeader(data: seq<byte>) returns (headerLen: nat, hdr: Header)
    ensures match Decode(data)
            case Incomplete => headerLen == 0 && hdr.payloadLen != UINT64_MAX
            case Malformed => headerLen == 0 && hdr.payloadLen == UINT64_MAX
            case Accepted(h) => headerLen == h.headerLen && hdr == h
  {
    hdr := EMPTY_HEADER;
    if |data| < 2 { return 0, hdr; }
    var b0, b1 := data[0], data[1];
    hdr := hdr.(fin := b0 / 128 % 2 != 0);
    var rsv, op: byte := b0 / 16 % 8, b0 % 16;
    if rsv != 0 || !IsValidOpCode(op) {
      return 0, hdr.(payloadLen := UINT64_MAX);
    }
    hdr := hdr.(opcode := OpCodeOf(op), masked := b1 / 128 % 2 != 0);
    var len7 := b1 % 128;
    var extLenBytes := 0;
    if len7 == 126 {
      extLenBytes := 2;
    } else if len7 == 127 {
      extLenBytes := 8;
    }
    headerLen := 2 + extLenBytes + (if hdr.masked then 4 else 0);
    if |data| < headerLen { return 0, hdr; }
    hdr := hdr.(headerLen := headerLen);

    if len7 <= 125 {
      hdr := hdr.(payloadLen := len7);
    } else if len7 == 126 {
      hdr := hdr.(payloadLen := data[2] as int * 256 + data[3]);
      assert hdr.payloadLen == LengthOf(data) by { assert data[1..4][1..] == [data[2], data[3]]; }
      if hdr.payloadLen < 126 {
        return 0, hdr.(payloadLen := UINT64_MAX);
      }
    } else {
      var ok, len := ReadLongLength(data);
      if !ok || len < 65536 {
        return 0, hdr.(payloadLen := UINT64_MAX);
      }
      hdr := hdr.(payloadLen := len);
    }

    if hdr.masked {
      var off := 2 + extLenBytes;
      hdr := hdr.(maskKey := data[off] as int * 0x100_0000 + data[off + 1] as int * 0x1_0000
                             + data[off + 2] as int * 0x100 + data[off + 3]);
      KeyBytes(data, off);
    }
    assert hdr.payloadLen == LengthOf(data);
    assert hdr.maskKey == KeyOf(data);
  }

  /** XOR the payload in place with the four bytes of the key, in rotation. */
  method ApplyMask(payload: array<byte>, maskKey: nat)
    requires maskKey < TWO_32
    modifies payload
    ensures payload[..] == Masked(old(payload[..]), maskKey)
    ensures forall i, k :: 0 <= i < payload.Length && 0 <= k < 8 ==>
              BitsOf(payload[i], 8)[k] == (BitsOf(old(payload[i]), 8)[k] as int + BitsOf(U32Bytes(maskKey)[i % 4], 8)[k]) % 2
  {
    hide BitsOf, Xor;
    var mask: seq<byte> :=
      [maskKey / 0x100_0000 % 256, maskKey / 0x1_0000 % 256, maskKey / 0x100 % 256, maskKey % 256];
    Shifts(maskKey);
    assert mask == U32Bytes(maskKey);
    var i := 0;
    while i < payload.Length
      invariant 0 <= i <= payload.Length
      invariant forall k :: 0 <= k < i ==> payload[k] == Masked(old(payload[..]), maskKey)[k]
      invariant forall k :: i <= k < payload.Length ==> payload[k] == old(payload[k])
    {
      payload[i] := XorBytes(payload[i], mask[i % 4]);
      i := i + 1;
    }
    AllMaskedBits(old(payload[..]), maskKey);
  }

  /** The eight bytes of a length, from the highest to the lowest. */
  method AppendLong(head: seq<byte>, len: nat) returns (frame: seq<byte>)
    ensures frame == head + U64Bytes(len)
  {
    hide U64Bytes, ByteAt;
    frame := head;
    assert |U64Bytes(len)| == 8 by { EightBytes(len); }
    for i := 8 downto 0
      invariant frame == head + U64Bytes(len)[..8 - i]
    {
      U64BytesAt(len, i);
      assert U64Bytes(len)[..8 - i] == U64Bytes(len)[..7 - i] + [ByteAt(len, i)];
      frame := frame + [ByteAt(len, i)];
    }
    assert U64Bytes(len)[..8] == U64Bytes(len);
  }

  lemma EightBytes(n: nat)
    ensures |U64Bytes(n)| == 8
  {
  }

  lemma ServerHeader(fin: bool, op: OpCode, len: nat)
    ensures len <= 125 ==> HeaderBytes(fin, op, None, len) == [FirstByte(fin, op), len]
    ensures 125 < len <= 65535 ==> HeaderBytes(fin, op, None, len) == [FirstByte(fin, op), 126] + U16Bytes(len)
    ensures 65535 < len ==> HeaderBytes(fin, op, None, len) == [FirstByte(fin, op), 127] + U64Bytes(len)
  {
    hide U16Bytes, U64Bytes;
  }

  /** Build an unmasked frame byte by byte. */
  method EncodeServerFrame(fin: bool, op: OpCode, payload: seq<byte>) returns (frame: seq<byte>)
    requires |payload| < TWO_64
    ensures frame == ServerFrame(fin, op, payload)
  {
    hide HeaderBytes, U64Bytes, ByteAt;
    var len := |payload|;
    var b0 := op.Code();
    if fin { b0 := b0 + 128; }
    frame := [b0];
    ServerHeader(fin, op, len);
    if len <= 125 {
      frame := frame + [len];
    } else if len <= 65535 {
      frame := frame + [126];
      frame := frame + [ByteAt(len, 1)];
      frame := frame + [ByteAt(len, 0)];
    } else {
      frame := frame + [127];
      frame := AppendLong(frame, len);
    }
    assert frame == HeaderBytes(fin, op, None, len);
    frame := frame + payload;
  }
}
