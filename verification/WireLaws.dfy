/** The bytes on the wire, pinned from outside: masking is the machine's exclusive or, the examples
    of section 5.7 of RFC 6455 come out as given there, and what either decoder makes of any two
    header bytes (orchestrator/ws.py, rp/src/midi_ws.c). */
module WireLaws {
  import opened Bytes
  import opened StreamParser
  import opened FrameCodec
  import DeviceWs

  // ---------------------------------------------------------------- exclusive or

  function Half(x: bv8): bv8 {
    x >> 1
  }

  function Both(x: bv8, y: bv8): bv8 {
    x ^ y
  }

  lemma Halve(x: bv8)
    ensures (x >> 1) as int == x as int / 2
  {
  }

  lemma Parity(x: bv8)
    ensures x as int % 2 == if x & 1 == 1 then 1 else 0
  {
  }

  lemma XorShift(x: bv8, y: bv8)
    ensures (x ^ y) >> 1 == (x >> 1) ^ (y >> 1) && ((x ^ y) & 1 == 1 <==> x & 1 != y & 1)
  {
  }

  lemma OneBit(x: bv8, y: bv8, z: bv8)
    requires z == x ^ y
    ensures z as int == (if x as int % 2 == y as int % 2 then 0 else 1) + 2 * (z >> 1) as int
  {
    Halve(z);
    Parity(x);
    Parity(y);
    Parity(z);
    XorShift(x, y);
  }

  lemma HalvesXor(x: bv8, y: bv8)
    ensures Half(Both(x, y)) == Both(Half(x), Half(y))
  {
    XorShift(x, y);
  }

  lemma Peel(x: bv8, y: bv8, a: nat, b: nat)
    requires a == x as int && b == y as int
    ensures Both(x, y) as int == (if a % 2 == b % 2 then 0 else 1) + 2 * Both(Half(x), Half(y)) as int
  {
    OneBit(x, y, Both(x, y));
    HalvesXor(x, y);
  }

  lemma HalfBound(a: nat, k: nat)
    requires k > 0 && a < Pow2(k)
    ensures a / 2 < Pow2(k - 1)
  {
  }

  lemma BitsStep(a: nat, b: nat, k: nat, h: nat, z: nat)
    requires k > 0 && XorBits(a / 2, b / 2, k - 1) == h && z == (if a % 2 == b % 2 then 0 else 1) + 2 * h
    ensures XorBits(a, b, k) == z
  {
  }

  lemma NoBits(x: bv8, y: bv8)
    requires x as int < 1 && y as int < 1
    ensures Both(x, y) as int == 0
  {
    IsZero(x);
    IsZero(y);
  }

  lemma IsZero(x: bv8)
    requires x as int < 1
    ensures x == 0
  {
  }

  lemma HalfIs(x: bv8, a: nat)
    requires a == x as int
    ensures Half(x) as int == a / 2
  {
    Halve(x);
  }

  lemma BitsMore(x: bv8, y: bv8, a: nat, b: nat, k: nat)
    requires k > 0 && a == x as int && b == y as int
    requires XorBits(a / 2, b / 2, k - 1) == Both(Half(x), Half(y)) as int
    ensures XorBits(a, b, k) == Both(x, y) as int
  {
    Peel(x, y, a, b);
    BitsStep(a, b, k, Both(Half(x), Half(y)) as int, Both(x, y) as int);
  }

  lemma {:induction false} BitsOfXor(x: bv8, y: bv8, a: nat, b: nat, k: nat)
    requires a < Pow2(k) && b < Pow2(k) && a == x as int && b == y as int
    ensures XorBits(a, b, k) == Both(x, y) as int
    decreases k
  {
    if k == 0 {
      NoBits(x, y);
    } else {
      HalfBound(a, k);
      HalfBound(b, k);
      HalfIs(x, a);
      HalfIs(y, b);
      BitsOfXor(Half(x), Half(y), a / 2, b / 2, k - 1);
      BitsMore(x, y, a, b, k);
    }
  }

  lemma Successor(x: bv8)
    requires x < 255
    ensures (x + 1) as int == x as int + 1
  {
  }

  lemma {:induction false} ByteOf(n: nat) returns (x: bv8)
    requires n < 256
    ensures x as int == n
  {
    x := 0;
    if n > 0 {
      var before := ByteOf(n - 1);
      Successor(before);
      x := before + 1;
    }
  }

  lemma SameByte(n: nat, x: bv8)
    requires n == x as int
    ensures n < 256 && n as bv8 == x
  {
  }

  lemma ThereAndBack(n: nat)
    requires n < 256
    ensures (n as bv8) as int == n
  {
    var x := ByteOf(n);
    SameByte(n, x);
  }

  lemma XorOf(a: byte, b: byte, x: bv8, y: bv8)
    requires a == x as int && b == y as int
    ensures Xor(a, b) == (x ^ y) as int
  {
    Pow2Eight();
    BitsOfXor(x, y, a, b, 8);
  }

  /** Masking is the machine's exclusive or of two bytes. */
  lemma XorIsMachine(a: byte, b: byte)
    ensures Xor(a, b) == ((a as bv8) ^ (b as bv8)) as int
  {
    ThereAndBack(a);
    ThereAndBack(b);
    XorOf(a, b, a as bv8, b as bv8);
  }

  /** Byte i of a masked payload: exclusive or with byte i mod 4 of the key. */
  lemma MaskedByte(data: seq<byte>, key: Mask, i: nat)
    requires i < |data|
    ensures Masked(data, key)[i] == ((data[i] as bv8) ^ (key[i % 4] as bv8)) as int
  {
    XorIsMachine(data[i], key[i % 4]);
  }

  /** A zero key leaves the payload as it is. */
  lemma ZeroKey(data: seq<byte>)
    ensures Masked(data, [0, 0, 0, 0]) == data
  {
    forall i | 0 <= i < |data|
      ensures Masked(data, [0, 0, 0, 0])[i] == data[i]
    {
      XorZero(data[i]);
    }
  }

  lemma XorZero(a: byte)
    ensures Xor(a, 0) == a
  {
    XorIsMachine(a, 0);
    ZeroBits(a as bv8);
    ThereAndBack(a);
  }

  lemma ZeroBits(x: bv8)
    ensures x ^ 0 == x
  {
  }

  // ---------------------------------------------------------------- frames written out

  /** The examples of section 5.7 of RFC 6455: "Hello" unmasked and masked, and a ping. */
  lemma HelloOnTheWire()
    ensures Encode(OP_TEXT, [0x48, 0x65, 0x6C, 0x6C, 0x6F], None) == [0x81, 0x05, 0x48, 0x65, 0x6C, 0x6C, 0x6F]
    ensures Encode(OP_TEXT, [0x48, 0x65, 0x6C, 0x6C, 0x6F], Some([0x37, 0xFA, 0x21, 0x3D]))
            == [0x81, 0x85, 0x37, 0xFA, 0x21, 0x3D, 0x7F, 0x9F, 0x4D, 0x51, 0x58]
    ensures Encode(OP_PING, [0x48, 0x65, 0x6C, 0x6C, 0x6F], None) == [0x89, 0x05, 0x48, 0x65, 0x6C, 0x6C, 0x6F]
  {
    assert Pack(5, 0) == [];
    HelloMasked();
  }

  lemma HelloMasked()
    ensures Masked([0x48, 0x65, 0x6C, 0x6C, 0x6F], [0x37, 0xFA, 0x21, 0x3D]) == [0x7F, 0x9F, 0x4D, 0x51, 0x58]
  {
    HelloXor();
    MaskedFive([0x48, 0x65, 0x6C, 0x6C, 0x6F], [0x37, 0xFA, 0x21, 0x3D], [0x7F, 0x9F, 0x4D, 0x51, 0x58]);
  }

  lemma MaskedFive(d: seq<byte>, key: Mask, m: seq<byte>)
    requires |d| == |m| == 5 && m[0] == Xor(d[0], key[0]) && m[1] == Xor(d[1], key[1]) && m[2] == Xor(d[2], key[2])
    requires m[3] == Xor(d[3], key[3]) && m[4] == Xor(d[4], key[0])
    ensures Masked(d, key) == m
  {
  }

  lemma HelloXor()
    ensures Xor(0x48, 0x37) == 0x7F && Xor(0x65, 0xFA) == 0x9F && Xor(0x6C, 0x21) == 0x4D
    ensures Xor(0x6C, 0x3D) == 0x51 && Xor(0x6F, 0x37) == 0x58
  {
    XorOf(0x48, 0x37, 0x48, 0x37);
    XorOf(0x65, 0xFA, 0x65, 0xFA);
    XorOf(0x6C, 0x21, 0x6C, 0x21);
    XorOf(0x6C, 0x3D, 0x6C, 0x3D);
    XorOf(0x6F, 0x37, 0x6F, 0x37);
  }

  /** A close frame, a pong, and one MIDI byte under a zero key. */
  lemma SmallFramesOnTheWire()
    ensures Encode(OP_CLOSE, [0x03, 0xE8], None) == [0x88, 0x02, 0x03, 0xE8]
    ensures Encode(OP_PONG, [], None) == [0x8A, 0x00]
    ensures Encode(OP_BINARY, [0x90], Some([0, 0, 0, 0])) == [0x82, 0x81, 0, 0, 0, 0, 0x90]
  {
    ZeroKey([0x90]);
    assert Pack(0, 0) == [] && Pack(1, 0) == [] && Pack(2, 0) == [];
  }

  /** Section 5.7 again: 256 bytes behind a 16-bit length, 64 KiB behind a 64-bit one; and the
      two sides of each limit. */
  lemma LongFramesOnTheWire(payload: seq<byte>)
    ensures |payload| == 125 ==> Encode(OP_BINARY, payload, None) == [0x82, 0x7D] + payload
    ensures |payload| == 126 ==> Encode(OP_BINARY, payload, None) == [0x82, 0x7E, 0x00, 0x7E] + payload
    ensures |payload| == 256 ==> Encode(OP_BINARY, payload, None) == [0x82, 0x7E, 0x01, 0x00] + payload
    ensures |payload| == 0xFFFF ==> Encode(OP_BINARY, payload, None) == [0x82, 0x7E, 0xFF, 0xFF] + payload
    ensures |payload| == 0x1_0000 ==>
              Encode(OP_BINARY, payload, None) == [0x82, 0x7F, 0, 0, 0, 0, 0, 0x01, 0x00, 0x00] + payload
  {
    var n := |payload|;
    assert Pack(n, 0) == [];
    if n == 126 || n == 256 || n == 0xFFFF {
      TwoPacked(n);
    } else if n == 0x1_0000 {
      EightPacked();
    }
  }

  lemma TwoPacked(n: nat)
    requires n < 0x1_0000
    ensures Pack(n, 2) == [n / 256, n % 256]
  {
    assert Pack(n / 256, 1) == Pack(0, 0) + [n / 256 % 256];
  }

  lemma EightPacked()
    ensures Pack(0x1_0000, 8) == [0, 0, 0, 0, 0, 1, 0, 0]
  {
    assert Pack(0, 4) == [0, 0, 0, 0];
    assert Pack(0, 5) == Pack(0, 4) + [0];
    assert Pack(1, 6) == Pack(0, 5) + [1];
    assert Pack(0x100, 7) == Pack(1, 6) + [0];
    assert Pack(0x1_0000, 8) == Pack(0x100, 7) + [0];
  }

  // ---------------------------------------------------------------- any header at all

  /** The device refuses a masked frame and a control frame of more than 125 bytes, and nothing
      else a header can say. */
  lemma DeviceRefuses(b0: byte, b1: byte)
    ensures DeviceWs.Run(DeviceWs.AtOp, [b0, b1]).ok <==> b1 < 128 && (b0 % 16 >= 8 ==> b1 <= 125)
  {
    assert [b0, b1][1..] == [b1] && [b1][1..] == [];
    HighOpcode(b0 % 16);
    assert DeviceWs.Run(DeviceWs.AtOp, [b0, b1]) == DeviceWs.Emit([], DeviceWs.Run(DeviceWs.AtLen(b0 % 16), [b1]));
  }

  lemma HighOpcode(opcode: nat)
    requires opcode < 16
    ensures DeviceWs.IsControl(opcode) <==> opcode >= 8
  {
  }

  /** FIN and the reserved bits are ignored by the device: of the first byte only the low four
      bits matter. */
  lemma DeviceIgnoresHighBits(b0: byte, rest: seq<byte>)
    ensures DeviceWs.Run(DeviceWs.AtOp, [b0] + rest) == DeviceWs.Run(DeviceWs.AtOp, [b0 % 16] + rest)
  {
    assert ([b0] + rest)[1..] == rest && ([b0 % 16] + rest)[1..] == rest;
  }

  /** And by the server. */
  lemma ServerIgnoresHighBits(b0: byte, rest: seq<byte>, max: nat)
    ensures ParseOne([b0] + rest, max) == ParseOne([b0 % 16] + rest, max)
  {
    var a, b := [b0] + rest, [b0 % 16] + rest;
    assert a[1..] == rest == b[1..];
    SameBehind(a, b, max);
  }

  lemma SameBehind(a: seq<byte>, b: seq<byte>, max: nat)
    requires |a| == |b| > 0 && a[1..] == b[1..] && a[0] % 16 == b[0] % 16
    ensures ParseOne(a, max) == ParseOne(b, max)
  {
    if |a| >= 2 {
      assert a[1] == a[1..][0] == b[1..][0] == b[1];
      var ext := 2 + ExtendedSize(a[1] % 128);
      if ext <= |a| {
        SliceBehind(a, b, 2, ext);
        var length := if a[1] % 128 < 126 then a[1] % 128 else Unpack(a[2..ext]);
        var body := ext + if a[1] >= 128 then 4 else 0;
        if body + length <= |a| {
          SliceBehind(a, b, ext, body);
          SliceBehind(a, b, body, body + length);
        }
      }
    }
  }

  lemma SliceBehind(a: seq<byte>, b: seq<byte>, i: nat, j: nat)
    requires |a| == |b| > 0 && a[1..] == b[1..] && 1 <= i <= j <= |a|
    ensures a[i..j] == b[i..j]
  {
    assert a[i..j] == a[1..][i - 1..j - 1];
    assert b[i..j] == b[1..][i - 1..j - 1];
  }
}
