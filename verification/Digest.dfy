/** The SHA-1, base64 and accept key of rp/src/midi_ws.c (RFC 3174; section 4 of RFC 4648;
    section 4.2.2 of RFC 6455). */
module Digest {
  import opened Arithmetic
  import opened Bytes

  // ---------------------------------------------------------------- base64

  function Letters(first: char, n: nat): (r: string)
    requires first as int + n <= 128
    ensures |r| == n
  {
    seq(n, i requires 0 <= i < n => (first as int + i) as char)
  }

  /** "A" to "Z", "a" to "z", "0" to "9", "+", "/". */
  const ALPHABET: string := Letters('A', 26) + Letters('a', 26) + Letters('0', 10) + "+/"
  const NUL: char := 0 as char

  function Digit(v: nat): char
    requires v < 64
  {
    ALPHABET[v]
  }

  /** The value of a base64 character. */
  function Value(c: char): (v: nat)
    ensures v < 64
  {
    if 'A' <= c <= 'Z' then c as int - 'A' as int
    else if 'a' <= c <= 'z' then c as int - 'a' as int + 26
    else if '0' <= c <= '9' then c as int - '0' as int + 52
    else if c == '+' then 62
    else if c == '/' then 63
    else 0
  }

  /** The three bytes of a group as one number. */
  function Group(a: byte, b: byte, c: byte): (v: nat)
    ensures v < 0x1000000
  {
    a as int * 65536 + b as int * 256 + c as int
  }

  /** A number as k base-64 digits, most significant first. */
  function Digits(v: nat, k: nat): (r: seq<char>)
    ensures |r| == k
  {
    if k == 0 then [] else Digits(v / 64, k - 1) + [Digit(v % 64)]
  }

  /** Groups of three bytes, each as four characters; a last group of one or two is padded. */
  function Base64(s: seq<byte>): (r: seq<char>)
    decreases |s|
  {
    if s == [] then []
    else if |s| == 1 then Digits(Group(s[0], 0, 0), 4)[..2] + "=="
    else if |s| == 2 then Digits(Group(s[0], s[1], 0), 4)[..3] + "="
    else Digits(Group(s[0], s[1], s[2]), 4) + Base64(s[3..])
  }

  /** The number base-64 characters denote. */
  function Number(r: seq<char>): nat
    decreases |r|
  {
    if r == [] then 0 else Number(r[..|r| - 1]) * 64 + Value(r[|r| - 1])
  }

  /** Reading base64 back, by the characters' values alone. */
  function Unbase64(r: seq<char>): (s: Option<seq<byte>>)
    decreases |r|
  {
    if r == [] then Some([])
    else if |r| < 4 then None
    else if r[3] != '=' then
      var rest := Unbase64(r[4..]);
      if rest.None? then None else Some(Pack(Number(r[..4]), 3) + rest.value)
    else if |r| > 4 then None
    else Some(Pack(Number(r), 3)[..if r[2] != '=' then 2 else 1])
  }

  lemma DigitValue(v: nat)
    requires v < 64
    ensures Value(Digit(v)) == v && Digit(v) != '='
  {
  }

  function Pow64(k: nat): (p: nat) {
    if k == 0 then 1 else 64 * Pow64(k - 1)
  }

  lemma {:induction false} NumberOfDigits(v: nat, k: nat)
    requires v < Pow64(k)
    ensures Number(Digits(v, k)) == v
    ensures forall i :: 0 <= i < k ==> Digits(v, k)[i] != '='
  {
    if k > 0 {
      NumberOfDigits(v / 64, k - 1);
      DigitValue(v % 64);
      assert Digits(v, k)[..k - 1] == Digits(v / 64, k - 1);
    }
  }

  lemma Pow64Four()
    ensures Pow64(4) == 0x1000000 && Pow64(3) == 0x40000 && Pow64(2) == 0x1000
  {
  }

  lemma NumberOfPadded(r: seq<char>)
    ensures Number(r + "=") == Number(r) * 64
  {
    assert (r + "=")[..|r|] == r;
  }

  lemma Four(v: nat)
    requires v < 0x1000000
    ensures Number(Digits(v, 4)) == v && Digits(v, 4)[2] != '=' && Digits(v, 4)[3] != '='
  {
    Pow64Four();
    NumberOfDigits(v, 4);
  }

  lemma Three(u: nat)
    requires u < 0x40000
    ensures Number(Digits(64 * u, 4)[..3] + "=") == 64 * u && Digits(64 * u, 4)[2] != '='
  {
    Pow64Four();
    NumberOfDigits(u, 3);
    assert 64 * u / 64 == u;
    assert Digits(64 * u, 4)[..3] == Digits(u, 3);
    NumberOfPadded(Digits(u, 3));
  }

  lemma Shifted(u: nat)
    ensures Digits(64 * u, 3)[..2] == Digits(u, 2) && Digits(4096 * u, 4)[..3] == Digits(64 * u, 3)
  {
    assert 64 * u / 64 == u && 4096 * u / 64 == 64 * u;
  }

  lemma Two(u: nat)
    requires u < 0x1000
    ensures Number(Digits(4096 * u, 4)[..2] + "==") == 4096 * u
  {
    Pow64Four();
    NumberOfDigits(u, 2);
    Shifted(u);
    var d := Digits(u, 2);
    assert Digits(4096 * u, 4)[..2] == Digits(4096 * u, 4)[..3][..2] == d;
    NumberOfPadded(d);
    NumberOfPadded(d + "=");
    assert d + "==" == d + "=" + "=";
  }

  lemma ThreeBytes(a: byte, b: byte, c: byte)
    ensures Pack(Group(a, b, c), 3) == [a, b, c]
  {
    var v := Group(a, b, c);
    assert v % 256 == c as int && v / 256 == a as int * 256 + b as int;
    assert v / 256 % 256 == b as int && v / 256 / 256 == a as int;
    assert Pack(a as int, 1) == [a];
    assert Pack(v / 256, 2) == [a, b];
  }

  lemma LastGroup(r: seq<char>)
    requires |r| == 4 && r[3] == '='
    ensures Unbase64(r) == Some(Pack(Number(r), 3)[..if r[2] != '=' then 2 else 1])
  {
  }

  lemma OneByte(a: byte)
    ensures Unbase64(Digits(Group(a, 0, 0), 4)[..2] + "==") == Some([a])
  {
    var r := Digits(Group(a, 0, 0), 4)[..2] + "==";
    assert Group(a, 0, 0) == 4096 * (16 * a as int);
    ThreeBytes(a, 0, 0);
    Two(16 * a as int);
    LastGroup(r);
    assert [a, 0, 0][..1] == [a];
  }

  lemma TwoBytes(a: byte, b: byte)
    ensures Unbase64(Digits(Group(a, b, 0), 4)[..3] + "=") == Some([a, b])
  {
    var d := Digits(Group(a, b, 0), 4);
    var r := d[..3] + "=";
    ThreeBytes(a, b, 0);
    assert Group(a, b, 0) == 64 * (1024 * a as int + 4 * b as int);
    Three(1024 * a as int + 4 * b as int);
    assert r[2] == d[2];
    LastGroup(r);
    assert [a, b, 0][..2] == [a, b];
  }

  lemma FullGroup(a: byte, b: byte, c: byte, rest: seq<char>, tail: seq<byte>)
    requires Unbase64(rest) == Some(tail)
    ensures Unbase64(Digits(Group(a, b, c), 4) + rest) == Some([a, b, c] + tail)
  {
    ThreeBytes(a, b, c);
    Four(Group(a, b, c));
    var q := Digits(Group(a, b, c), 4);
    assert (q + rest)[4..] == rest && (q + rest)[..4] == q;
  }

  lemma Thirds(n: nat)
    requires n > 2
    ensures (n + 2) / 3 * 4 == 4 + (n - 3 + 2) / 3 * 4
  {
  }

  lemma {:induction false} Base64Length(s: seq<byte>)
    ensures |Base64(s)| == (|s| + 2) / 3 * 4
    decreases |s|
  {
    if |s| > 2 {
      Base64Length(s[3..]);
      assert |Base64(s)| == 4 + |Base64(s[3..])|;
      Thirds(|s|);
    }
  }

  /** Base64 output decodes back. */
  lemma {:induction false} Base64RoundTrip(s: seq<byte>)
    ensures Unbase64(Base64(s)) == Some(s)
    decreases |s|
  {
    if |s| == 1 {
      OneByte(s[0]);
      assert s == [s[0]];
    } else if |s| == 2 {
      TwoBytes(s[0], s[1]);
      assert s == [s[0], s[1]];
    } else if |s| > 2 {
      Base64RoundTrip(s[3..]);
      FullGroup(s[0], s[1], s[2], Base64(s[3..]), s[3..]);
      Triple(s);
    }
  }

  lemma Triple(s: seq<byte>)
    requires |s| > 2
    ensures s == [s[0], s[1], s[2]] + s[3..]
  {
  }

  /** Writes the first n characters of a group of four, padded, at o. */
  method WriteGroup(out: array<char>, o: nat, v: nat, n: nat)
    requires o + 4 <= out.Length && v < 0x1000000 && 2 <= n <= 4
    modifies out
    ensures out[..o] == old(out[..o])
    ensures out[o..o + 4] == Digits(v, 4)[..n] + "=="[..4 - n]
  {
    FourDigits(v);
    out[o] := Digit(v / 0x40000 % 64);
    out[o + 1] := Digit(v / 0x1000 % 64);
    out[o + 2] := if n > 2 then Digit(v / 64 % 64) else '=';
    out[o + 3] := if n > 3 then Digit(v % 64) else '=';
  }

  lemma FourDigits(v: nat)
    ensures Digits(v, 4) == [Digit(v / 0x40000 % 64), Digit(v / 0x1000 % 64), Digit(v / 64 % 64), Digit(v % 64)]
  {
    assert v / 64 / 64 == v / 0x1000 && v / 0x1000 / 64 == v / 0x40000;
    assert Digits(v / 0x40000, 1) == [Digit(v / 0x40000 % 64)];
    assert Digits(v / 0x1000, 2) == Digits(v / 0x40000, 1) + [Digit(v / 0x1000 % 64)];
    assert Digits(v / 64, 3) == Digits(v / 0x1000, 2) + [Digit(v / 64 % 64)];
  }

  /** Writes the base64 of the input, with a terminator, into a buffer that has room. */
  method EncodeBase64(input: seq<byte>, out: array<char>) returns (o: nat)
    requires out.Length > (|input| + 2) / 3 * 4
    modifies out
    ensures o < out.Length && out[..o] == Base64(input) && out[o] == NUL
  {
    var i := 0;
    o := 0;
    while i + 3 <= |input|
      invariant 0 <= i <= |input| && 3 * o == 4 * i && o < out.Length
      invariant out[..o] + Base64(input[i..]) == Base64(input)
    {
      Room(|input|, i, o);
      EncodeGroup(input, i, out, o);
      o := o + 4;
      i := i + 3;
    }
    if i < |input| {
      Room(|input|, i, o);
    }
    o := Finish(input, i, out, o);
  }

  /** What is left after the whole groups, and the terminator. */
  method Finish(input: seq<byte>, i: nat, out: array<char>, o: nat) returns (o': nat)
    requires i <= |input| < i + 3 && o < out.Length && (i < |input| ==> o + 4 < out.Length)
    requires out[..o] + Base64(input[i..]) == Base64(input)
    modifies out
    ensures o' < out.Length && out[..o'] == Base64(input) && out[o'] == NUL
  {
    o' := o;
    if i < |input| {
      EncodeRest(input, i, out, o);
      o' := o + 4;
    } else {
      assert out[..o] + [] == out[..o];
    }
    out[o'] := NUL;
  }

  /** Three bytes. */
  method EncodeGroup(input: seq<byte>, i: nat, out: array<char>, o: nat)
    requires i + 3 <= |input| && o + 4 <= out.Length
    requires out[..o] + Base64(input[i..]) == Base64(input)
    modifies out
    ensures out[..o + 4] + Base64(input[i + 3..]) == Base64(input)
  {
    WriteGroup(out, o, Group(input[i], input[i + 1], input[i + 2]), 4);
    Written(out[..], o, Digits(Group(input[i], input[i + 1], input[i + 2]), 4), input, i, 3);
  }

  /** The last one or two bytes. */
  method EncodeRest(input: seq<byte>, i: nat, out: array<char>, o: nat)
    requires i < |input| < i + 3 && o + 4 <= out.Length
    requires out[..o] + Base64(input[i..]) == Base64(input)
    modifies out
    ensures out[..o + 4] == Base64(input)
  {
    if |input| - i == 1 {
      WriteGroup(out, o, Group(input[i], 0, 0), 2);
      Written(out[..], o, Digits(Group(input[i], 0, 0), 4)[..2] + "==", input, i, 1);
    } else {
      WriteGroup(out, o, Group(input[i], input[i + 1], 0), 3);
      Written(out[..], o, Digits(Group(input[i], input[i + 1], 0), 4)[..3] + "=", input, i, 2);
    }
  }

  lemma Room(n: nat, i: nat, o: nat)
    requires i < n && 3 * o == 4 * i
    ensures o + 4 <= (n + 2) / 3 * 4
  {
  }

  lemma Written(out: seq<char>, o: nat, q: seq<char>, input: seq<byte>, i: nat, n: nat)
    requires o + 4 <= |out| && i + n <= |input| && |q| == 4 && out[o..o + 4] == q
    requires out[..o] + Base64(input[i..]) == Base64(input)
    requires Base64(input[i..]) == q + Base64(input[i + n..])
    ensures out[..o + 4] + Base64(input[i + n..]) == Base64(input)
  {
    assert out[..o + 4] == out[..o] + q;
    Regroup(out[..o], q, Base64(input[i + n..]));
  }

  // ---------------------------------------------------------------- SHA-1

  // The rotations of section 3 of RFC 3174.

  function Rol1(v: bv32): bv32 {
    (v << 1) | (v >> 31)
  }

  function Rol5(v: bv32): bv32 {
    (v << 5) | (v >> 27)
  }

  function Rol30(v: bv32): bv32 {
    (v << 30) | (v >> 2)
  }

  datatype Regs = Regs(a: bv32, b: bv32, c: bv32, d: bv32, e: bv32)

  const INITIAL: Regs := Regs(0x67452301, 0xEFCDAB89, 0x98BADCFE, 0x10325476, 0xC3D2E1F0)

  function F(t: nat, b: bv32, c: bv32, d: bv32): bv32 {
    if t < 20 then (b & c) | (!b & d)
    else if t < 40 then b ^ c ^ d
    else if t < 60 then (b & c) | (b & d) | (c & d)
    else b ^ c ^ d
  }

  function K(t: nat): bv32 {
    if t < 20 then 0x5A827999 else if t < 40 then 0x6ED9EBA1 else if t < 60 then 0x8F1BBCDC else 0xCA62C1D6
  }

  function Word(s: seq<byte>): bv32
    requires |s| == 4
  {
    WordSize(s);
    Unpack(s) as bv32
  }

  lemma WordSize(s: seq<byte>)
    requires |s| == 4
    ensures Unpack(s) == s[0] as int * 0x1000000 + s[1] as int * 0x10000 + s[2] as int * 0x100 + s[3] as int
    ensures Unpack(s) < 0x1_0000_0000
  {
    assert s[..3][..2][..1] == [s[0]] && s[..3][..2] == [s[0], s[1]] && s[..3] == [s[0], s[1], s[2]];
    assert Unpack([s[0]]) == s[0] as int;
    assert Unpack(s[..3][..2]) == s[0] as int * 256 + s[1] as int;
  }

  function Mixed(w3: bv32, w8: bv32, w14: bv32, w16: bv32): bv32 {
    Rol1(w3 ^ w8 ^ w14 ^ w16)
  }

  /** The message schedule W(t) of a block. */
  function Schedule(blk: seq<byte>, t: nat): bv32
    requires |blk| == 64
  {
    if t < 16 then Word(blk[4 * t..4 * t + 4])
    else Mixed(Schedule(blk, t - 3), Schedule(blk, t - 8), Schedule(blk, t - 14), Schedule(blk, t - 16))
  }

  function NextA(a: bv32, b: bv32, c: bv32, d: bv32, e: bv32, t: nat, w: bv32): bv32 {
    Rol5(a) + F(t, b, c, d) + e + K(t) + w
  }

  function Round(r: Regs, t: nat, w: bv32): Regs {
    Regs(NextA(r.a, r.b, r.c, r.d, r.e, t, w), r.a, Rol30(r.b), r.c, r.d)
  }

  /** The registers after t rounds over a block. */
  function Rounds(r: Regs, blk: seq<byte>, t: nat): Regs
    requires |blk| == 64
  {
    if t == 0 then r else Round(Rounds(r, blk, t - 1), t - 1, Schedule(blk, t - 1))
  }

  function Add(x: bv32, y: bv32): bv32 {
    x + y
  }

  function Plus(r: Regs, s: Regs): Regs {
    Regs(Add(r.a, s.a), Add(r.b, s.b), Add(r.c, s.c), Add(r.d, s.d), Add(r.e, s.e))
  }

  function Block(h: Regs, blk: seq<byte>): Regs
    requires |blk| == 64
  {
    Plus(h, Rounds(h, blk, 80))
  }

  /** Folding the block function over whole blocks. */
  function Fold(h: Regs, s: seq<byte>): Regs
    requires |s| % 64 == 0
    decreases |s|
  {
    if s == [] then h else Fold(Block(h, s[..64]), s[64..])
  }

  function Zeros(n: nat): (r: seq<byte>)
    ensures |r| == n
    ensures forall i :: 0 <= i < n ==> r[i] == 0
  {
    seq(n, i => 0)
  }

  /** The least number of zeros that brings the length, with its 9 other padding bytes, to whole blocks. */
  function Gap(n: nat): (k: nat)
    ensures k < 64 && (n + 9 + k) % 64 == 0
  {
    var r := n % 64;
    WholeBlocks(n / 64, r);
    assert n == 64 * (n / 64) + r;
    if r <= 55 then 55 - r else 119 - r
  }

  lemma WholeBlocks(q: nat, r: nat)
    requires r < 64
    ensures (64 * q + r + 9 + if r <= 55 then 55 - r else 119 - r) % 64 == 0
  {
    var k := if r <= 55 then 55 - r else 119 - r;
    assert 64 * q + r + 9 + k == 64 * (if r <= 55 then q + 1 else q + 2);
  }

  /** The padding of section 4 of RFC 3174: a set bit, the least zeros that fit, and the length in bits. */
  function Padding(n: nat): (r: seq<byte>)
    ensures |r| == 9 + Gap(n) && (n + |r|) % 64 == 0
  {
    [0x80] + Zeros(Gap(n)) + Pack(8 * n, 8)
  }

  function WordBytes(w: bv32): (r: seq<byte>)
    ensures |r| == 4
  {
    Pack(w as int, 4)
  }

  function Output(h: Regs): (r: seq<byte>)
    ensures |r| == 20
  {
    WordBytes(h.a) + WordBytes(h.b) + WordBytes(h.c) + WordBytes(h.d) + WordBytes(h.e)
  }

  /** The digest of RFC 3174. */
  function Sha1(m: seq<byte>): (r: seq<byte>)
    ensures |r| == 20
  {
    Output(Fold(INITIAL, m + Padding(|m|)))
  }

  /** The block as sixteen words, and the 64 words they schedule. */
  method Expand(blk: seq<byte>) returns (w: array<bv32>)
    requires |blk| == 64
    ensures fresh(w) && w.Length == 80 && forall j :: 0 <= j < 80 ==> w[j] == Schedule(blk, j)
  {
    w := new bv32[80];
    LoadBlock(w, blk);
    var i := 16;
    while i < 80
      invariant 16 <= i <= 80
      invariant forall j :: 0 <= j < i ==> w[j] == Schedule(blk, j)
    {
      w[i] := Mixed(w[i - 3], w[i - 8], w[i - 14], w[i - 16]);
      i := i + 1;
    }
  }

  method LoadBlock(w: array<bv32>, blk: seq<byte>)
    requires |blk| == 64 && w.Length == 80
    modifies w
    ensures forall j :: 0 <= j < 16 ==> w[j] == Schedule(blk, j)
  {
    var i := 0;
    while i < 16
      invariant 0 <= i <= 16
      invariant forall j :: 0 <= j < i ==> w[j] == Schedule(blk, j)
    {
      w[i] := Load(blk[4 * i], blk[4 * i + 1], blk[4 * i + 2], blk[4 * i + 3], blk[4 * i..4 * i + 4]);
      i := i + 1;
    }
  }

  method Load(b0: byte, b1: byte, b2: byte, b3: byte, ghost s: seq<byte>) returns (w: bv32)
    requires s == [b0, b1, b2, b3]
    ensures w == Word(s)
  {
    WordSize(s);
    w := (b0 as int * 0x1000000 + b1 as int * 0x10000 + b2 as int * 0x100 + b3 as int) as bv32;
  }

  lemma FoldOne(h: Regs, blk: seq<byte>)
    requires |blk| == 64
    ensures Fold(h, blk) == Block(h, blk)
  {
    assert blk[..64] == blk && blk[64..] == [];
  }

  /** The low k bytes of a number, each shifted down from its place. */
  method BigEndian(v: nat, k: nat) returns (r: seq<byte>)
    ensures r == Pack(v, k)
  {
    r := [];
    var j := 0;
    while j < k
      invariant 0 <= j <= k && r == Pack(v, k)[..j]
    {
      PackAt(v, k, j);
      r := r + [v / Pow256(k - 1 - j) % 256];
      j := j + 1;
    }
  }

  lemma {:induction false} PackAt(v: nat, k: nat, j: nat)
    requires j < k
    ensures Pack(v, k)[j] == v / Pow256(k - 1 - j) % 256
    decreases k
  {
    if j + 1 < k {
      PackAt(v / 256, k - 1, j);
      DivDiv(v, Pow256(k - 2 - j));
    }
  }

  lemma DivDiv(v: nat, b: nat)
    requires b > 0
    ensures v / 256 / b == v / (256 * b)
  {
    var u := v / 256;
    var q, r := u / b, u % b;
    assert u == b * q + r;
    Scaled(b, q, r);
    Quotient(v, 256 * b, q, 256 * r + v % 256);
  }

  lemma Scaled(b: nat, q: nat, r: nat)
    ensures 256 * (b * q + r) == 256 * b * q + 256 * r
  {
  }

  method EmitWord(w: bv32) returns (r: seq<byte>)
    ensures r == WordBytes(w)
  {
    r := BigEndian(w as int, 4);
  }

  class Hash {
    var h: Regs

    /** One block into the state. */
    method AddBlock(blk: seq<byte>)
      requires |blk| == 64
      modifies this
      ensures h == Block(old(h), blk)
    {
      var w := Expand(blk);
      var a, b, c, d, e := h.a, h.b, h.c, h.d, h.e;
      var i := 0;
      while i < 80
        invariant 0 <= i <= 80 && h == old(h)
        invariant Regs(a, b, c, d, e) == Rounds(h, blk, i)
      {
        var t := NextA(a, b, c, d, e, i, w[i]);
        e := d;
        d := c;
        c := Rol30(b);
        b := a;
        a := t;
        i := i + 1;
      }
      h := Regs(Add(h.a, a), Add(h.b, b), Add(h.c, c), Add(h.d, d), Add(h.e, e));
    }

    /** The digest of a message shorter than a 32-bit size, with its padding built in one block buffer. */
    method Digest(data: seq<byte>) returns (out: seq<byte>)
      requires |data| < 0x1_0000_0000
      modifies this
      ensures out == Sha1(data)
    {
      h := INITIAL;
      ghost var all := data + Padding(|data|);
      assert all[0..] == all;
      var i := 0;
      while |data| - i >= 64
        invariant 0 <= i <= |data| && i % 64 == 0
        invariant (|all| - i) % 64 == 0 && Fold(h, all[i..]) == Fold(INITIAL, all)
      {
        WholeBlock(data, Padding(|data|), i);
        AddNext(data[i..i + 64], all, i);
        i := i + 64;
      }
      LastBlocks(data, i);
      AddTail(data[i..], |data|);
      out := Emit();
    }

    method AddNext(blk: seq<byte>, ghost all: seq<byte>, ghost i: nat)
      requires i + 64 <= |all| && (|all| - i) % 64 == 0 && blk == all[i..i + 64]
      modifies this
      ensures (|all| - (i + 64)) % 64 == 0 && Fold(h, all[i + 64..]) == Fold(old(h), all[i..])
    {
      FoldStep(h, all, i);
      AddBlock(blk);
    }

    /** The state as bytes. */
    method Emit() returns (out: seq<byte>)
      ensures out == Output(h)
    {
      var a := EmitWord(h.a);
      var b := EmitWord(h.b);
      var c := EmitWord(h.c);
      var d := EmitWord(h.d);
      var e := EmitWord(h.e);
      out := a + b + c + d + e;
    }

    /** The last bytes with their padding: one block, or two when the length no longer fits. */
    method AddTail(tail: seq<byte>, n: nat)
      requires |tail| == n % 64 && n < 0x1_0000_0000
      modifies this
      ensures h == Fold(old(h), tail + Padding(n))
    {
      var rem := |tail|;
      var blk := tail + [0x80] + Zeros(63 - rem);
      ghost var all := tail + Padding(n);
      if rem >= 56 {
        TwoBlocks(tail, n);
        AddBlock(blk);
        blk := Zeros(64);
      } else {
        OneBlock(tail, n);
      }
      var size := BigEndian(8 * n, 8);
      blk := blk[..56] + size;
      FoldOne(h, blk);
      AddBlock(blk);
    }
  }

  lemma WholeBlock(data: seq<byte>, rest: seq<byte>, i: nat)
    requires i + 64 <= |data|
    ensures (data + rest)[i..i + 64] == data[i..i + 64]
  {
  }

  lemma FoldStep(h: Regs, all: seq<byte>, i: nat)
    requires i + 64 <= |all| && (|all| - i) % 64 == 0
    ensures (|all| - (i + 64)) % 64 == 0
    ensures Fold(h, all[i..]) == Fold(Block(h, all[i..i + 64]), all[i + 64..])
  {
    assert all[i..][..64] == all[i..i + 64] && all[i..][64..] == all[i + 64..];
  }

  lemma LastBlocks(data: seq<byte>, i: nat)
    requires i <= |data| && i % 64 == 0 && |data| - i < 64
    ensures |data[i..]| == |data| % 64 && (data + Padding(|data|))[i..] == data[i..] + Padding(|data|)
  {
    Rest(|data|, i);
    Suffix(data, Padding(|data|), i);
  }

  lemma Rest(n: nat, i: nat)
    requires i <= n && i % 64 == 0 && n - i < 64
    ensures n - i == n % 64
  {
  }

  lemma Suffix(a: seq<byte>, b: seq<byte>, i: nat)
    requires i <= |a|
    ensures (a + b)[i..] == a[i..] + b
  {
  }

  lemma OneBlock(tail: seq<byte>, n: nat)
    requires |tail| == n % 64 < 56
    ensures tail + Padding(n) == (tail + [0x80] + Zeros(63 - |tail|))[..56] + Pack(8 * n, 8)
  {
  }

  lemma TwoBlocks(tail: seq<byte>, n: nat)
    requires |tail| == n % 64 >= 56
    ensures (tail + Padding(n))[..64] == tail + [0x80] + Zeros(63 - |tail|)
    ensures (tail + Padding(n))[64..] == Zeros(64)[..56] + Pack(8 * n, 8)
  {
  }

  // ---------------------------------------------------------------- the accept key

  const GUID: string := "258EAFA5-E914-47DA-95CA-C5AB0DC85B11"
  const BUFFER: nat := 96

  /** The text as bytes. */
  function Ascii(s: string): (r: seq<byte>)
    ensures |r| == |s|
  {
    seq(|s|, i requires 0 <= i < |s| => s[i] as int % 256)
  }

  /** The key with the protocol's fixed text after it. */
  function Salted(key: seq<byte>): (r: seq<byte>)
    ensures |r| == |key| + 36
  {
    assert |GUID| == 36;
    key + Ascii(GUID)
  }

  /** What the server answers to a key (section 4.2.2 of RFC 6455). */
  function ServerAccept(key: seq<byte>): seq<char> {
    Base64(Sha1(Salted(key)))
  }

  /** The answer the device waits for; a key too long for its buffer gives the empty string. */
  method AcceptKey(key: seq<byte>, out: array<char>) returns (o: nat)
    requires out.Length > 28
    modifies out
    ensures o < out.Length && out[o] == NUL
    ensures out[..o] == if |key| + 36 > BUFFER then [] else ServerAccept(key)
  {
    if |key| + 36 > BUFFER {
      o := 0;
      out[0] := NUL;
    } else {
      var hash := new Hash;
      var dig := hash.Digest(Salted(key));
      o := EncodeBase64(dig, out);
    }
  }

  /** The answer is 28 characters, from which the digest can be read back. */
  lemma AnswerHoldsDigest(key: seq<byte>)
    ensures |ServerAccept(key)| == 28
    ensures Unbase64(ServerAccept(key)) == Some(Sha1(Salted(key)))
  {
    TwentyBytes(Sha1(Salted(key)));
  }

  lemma TwentyBytes(d: seq<byte>)
    requires |d| == 20
    ensures |Base64(d)| == 28 && Unbase64(Base64(d)) == Some(d)
  {
    Base64Length(d);
    Base64RoundTrip(d);
  }

  /** Two keys get one answer exactly when their digests collide. */
  lemma SameAnswer(key: seq<byte>, other: seq<byte>)
    ensures ServerAccept(key) == ServerAccept(other) <==> Sha1(Salted(key)) == Sha1(Salted(other))
  {
    AnswerHoldsDigest(key);
    AnswerHoldsDigest(other);
  }

  /** The device and the server agree on the answer exactly for the keys that fit the device's buffer. */
  lemma HandshakeAgrees(key: seq<byte>, expected: seq<char>)
    requires expected == if |key| + 36 > BUFFER then [] else ServerAccept(key)
    ensures expected == ServerAccept(key) <==> |key| <= 60
  {
    AnswerHoldsDigest(key);
  }
}
