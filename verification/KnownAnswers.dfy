/** Known answers of the standards for the digest and the accept key of rp/src/midi_ws.c: section
    7.3 of RFC 3174 and section 1.3 of RFC 6455, computed eight rounds at a time. */
module KnownAnswers {
  import opened Arithmetic
  import opened Bytes
  import opened Digest

  /** Sixteen consecutive words of a message schedule. */
  datatype Window = Window(w0: bv32, w1: bv32, w2: bv32, w3: bv32, w4: bv32, w5: bv32, w6: bv32, w7: bv32,
                           w8: bv32, w9: bv32, w10: bv32, w11: bv32, w12: bv32, w13: bv32, w14: bv32, w15: bv32)

  function Slide(v: Window): Window {
    Window(v.w1, v.w2, v.w3, v.w4, v.w5, v.w6, v.w7, v.w8,
           v.w9, v.w10, v.w11, v.w12, v.w13, v.w14, v.w15, Mixed(v.w13, v.w8, v.w2, v.w0))
  }

  /** The registers after some rounds, and the schedule from there on. */
  datatype State = State(regs: Regs, words: Window)

  function Run(s: State, t: nat, n: nat): State
    decreases n
  {
    if n == 0 then s else Run(Next(s, t), t + 1, n - 1)
  }

  function WindowAt(blk: seq<byte>, t: nat): Window
    requires |blk| == 64
  {
    Window(Schedule(blk, t), Schedule(blk, t + 1), Schedule(blk, t + 2), Schedule(blk, t + 3),
           Schedule(blk, t + 4), Schedule(blk, t + 5), Schedule(blk, t + 6), Schedule(blk, t + 7),
           Schedule(blk, t + 8), Schedule(blk, t + 9), Schedule(blk, t + 10), Schedule(blk, t + 11),
           Schedule(blk, t + 12), Schedule(blk, t + 13), Schedule(blk, t + 14), Schedule(blk, t + 15))
  }

  function Next(s: State, t: nat): State {
    State(Round(s.regs, t, s.words.w0), Slide(s.words))
  }

  /** The state after t rounds over a block. */
  function StateAt(h: Regs, blk: seq<byte>, t: nat): State
    requires |blk| == 64
    decreases t, blk
  {
    if t == 0 then State(h, WindowAt(blk, 0)) else Next(StateAt(h, blk, t - 1), t - 1)
  }

  lemma ScheduleAt(blk: seq<byte>, t: nat)
    requires |blk| == 64 && t >= 16
    ensures Schedule(blk, t)
            == Mixed(Schedule(blk, t - 3), Schedule(blk, t - 8), Schedule(blk, t - 14), Schedule(blk, t - 16))
  {
  }

  lemma SlidesOn(blk: seq<byte>, t: nat)
    requires |blk| == 64
    ensures Slide(WindowAt(blk, t)) == WindowAt(blk, t + 1)
  {
    ScheduleAt(blk, t + 16);
  }

  lemma {:induction false} StateIs(h: Regs, blk: seq<byte>, t: nat)
    requires |blk| == 64
    ensures StateAt(h, blk, t) == State(Rounds(h, blk, t), WindowAt(blk, t))
    decreases t
  {
    if t > 0 {
      StateIs(h, blk, t - 1);
      SlidesOn(blk, t - 1);
    }
  }

  lemma {:induction false} RunIsRounds(h: Regs, blk: seq<byte>, t: nat, n: nat)
    requires |blk| == 64
    ensures Run(StateAt(h, blk, t), t, n) == StateAt(h, blk, t + n)
    decreases n
  {
    if n > 0 {
      RunIsRounds(h, blk, t + 1, n - 1);
    }
  }

  /** Some rounds further. */
  lemma Further(h: Regs, blk: seq<byte>, t: nat, n: nat, s: State, s': State)
    requires |blk| == 64 && s == StateAt(h, blk, t) && Run(s, t, n) == s'
    ensures s' == StateAt(h, blk, t + n)
  {
    RunIsRounds(h, blk, t, n);
  }

  lemma Summed(h: Regs, blk: seq<byte>, first: State, last: State)
    requires |blk| == 64 && StateAt(h, blk, 0) == first && StateAt(h, blk, 80) == last
    ensures Block(h, blk) == Plus(first.regs, last.regs)
  {
    StateIs(h, blk, 80);
  }

  /** Four bytes, most significant first, as a number. */
  function Quad(b0: nat, b1: nat, b2: nat, b3: nat): nat {
    b0 * 0x1000000 + b1 * 0x10000 + b2 * 0x100 + b3
  }

  /** A word is its four bytes, most significant first. */
  lemma WordIs(blk: seq<byte>, t: nat, w: bv32)
    requires |blk| == 64 && t < 16
    requires Quad(blk[4 * t], blk[4 * t + 1], blk[4 * t + 2], blk[4 * t + 3]) == w as int
    ensures Schedule(blk, t) == w
  {
    FourBytes(blk[4 * t..4 * t + 4], w);
  }

  lemma FourBytes(s: seq<byte>, w: bv32)
    requires |s| == 4 && Quad(s[0], s[1], s[2], s[3]) == w as int
    ensures Word(s) == w
  {
    WordSize(s);
    SameWord(Unpack(s), w);
  }

  lemma SameWord(n: nat, w: bv32)
    requires n == w as int
    ensures n < 0x1_0000_0000 && n as bv32 == w
  {
  }

  /** The bytes of a word. */
  lemma BytesOf(w: bv32, b0: byte, b1: byte, b2: byte, b3: byte)
    requires Quad(b0, b1, b2, b3) == w as int
    ensures WordBytes(w) == [b0, b1, b2, b3]
  {
    FourPacked(w as int, b0, b1, b2, b3);
  }

  lemma FourPacked(n: nat, b0: byte, b1: byte, b2: byte, b3: byte)
    requires n == Quad(b0, b1, b2, b3)
    ensures Pack(n, 4) == [b0, b1, b2, b3]
  {
    var q3: nat := b0 as int * 0x10000 + b1 as int * 0x100 + b2 as int;
    var q2: nat := b0 as int * 0x100 + b1 as int;
    OnePacked(n, 3, q3, b3);
    OnePacked(q3, 2, q2, b2);
    OnePacked(q2, 1, b0, b1);
    OnePacked(b0, 0, 0, b0);
  }

  lemma OnePacked(n: nat, k: nat, q: nat, r: byte)
    requires n == q * 256 + r
    ensures Pack(n, k + 1) == Pack(q, k) + [r]
  {
    assert n / 256 == q && n % 256 == r;
  }

  // ---------------------------------------------------------------- "abc" (section 7.3 of RFC 3174)

  const ABC_0 := State(Regs(0x67452301, 0xEFCDAB89, 0x98BADCFE, 0x10325476, 0xC3D2E1F0),
        Window(0x61626380, 0x00000000, 0x00000000, 0x00000000, 0x00000000, 0x00000000, 0x00000000, 0x00000000,
               0x00000000, 0x00000000, 0x00000000, 0x00000000, 0x00000000, 0x00000000, 0x00000000, 0x00000018))
  const ABC_2 := State(Regs(0x8990536D, 0x0116FC33, 0x59D148C0, 0x7BF36AE2, 0x98BADCFE),
        Window(0x00000000, 0x00000000, 0x00000000, 0x00000000, 0x00000000, 0x00000000, 0x00000000, 0x00000000,
               0x00000000, 0x00000000, 0x00000000, 0x00000000, 0x00000000, 0x00000018, 0xC2C4C700, 0x00000000))
  const ABC_4 := State(Regs(0xCDD8E11B, 0xA1390F08, 0x626414DB, 0xC045BF0C, 0x59D148C0),
        Window(0x00000000, 0x00000000, 0x00000000, 0x00000000, 0x00000000, 0x00000000, 0x00000000, 0x00000000,
               0x00000000, 0x00000000, 0x00000000, 0x00000018, 0xC2C4C700, 0x00000000, 0x00000030, 0x85898E01))
  const ABC_6 := State(Regs(0x3FC7CA40, 0xCFD499DE, 0xF3763846, 0x284E43C2, 0x626414DB),
        Window(0x00000000, 0x00000000, 0x00000000, 0x00000000, 0x00000000, 0x00000000, 0x00000000, 0x00000000,
               0x00000000, 0x00000018, 0xC2C4C700, 0x00000000, 0x00000030, 0x85898E01, 0x00000000, 0x00000060))
  const ABC_8 := State(Regs(0x9E8C07D4, 0x993E30C1, 0x0FF1F290, 0xB3F52677, 0xF3763846),
        Window(0x00000000, 0x00000000, 0x00000000, 0x00000000, 0x00000000, 0x00000000, 0x00000000, 0x00000018,
               0xC2C4C700, 0x00000000, 0x00000030, 0x85898E01, 0x00000000, 0x00000060, 0x0B131C03, 0x00000030))
  const ABC_16 := State(Regs(0x20BDD62F, 0x196BEE77, 0x644A3DA5, 0x1181ED99, 0x18C623F9),
        Window(0xC2C4C700, 0x00000000, 0x00000030, 0x85898E01, 0x00000000, 0x00000060, 0x0B131C03, 0x00000030,
               0x85898EC1, 0x16263806, 0x00000000, 0x00000180, 0x2C4C700C, 0x000000F0, 0x93AFB507, 0x5898E048))
  const ABC_24 := State(Regs(0xD541F12D, 0x21283486, 0x0CE88EFF, 0x868DEC32, 0x7F67875F),
        Window(0x85898EC1, 0x16263806, 0x00000000, 0x00000180, 0x2C4C700C, 0x000000F0, 0x93AFB507, 0x5898E048,
               0x8E9A9202, 0x00000600, 0xB131C0F0, 0x16263BC6, 0x4EBED41E, 0x626380A1, 0x16263806, 0x000018C0))
  const ABC_32 := State(Regs(0x3B845D33, 0x1267B407, 0x717EEBD7, 0xA0DC2D4B, 0xD2AA1365),
        Window(0x8E9A9202, 0x00000600, 0xB131C0F0, 0x16263BC6, 0x4EBED41E, 0x626380A1, 0x16263806, 0x000018C0,
               0xD2E138C4, 0x00000F00, 0x3AFB5079, 0x898E04E5, 0xE2BA3C2B, 0x000060C0, 0x053A37CD, 0x74458547))
  const ABC_40 := State(Regs(0x32DE1CBA, 0x4C986405, 0xF718E5CF, 0x03D447F6, 0xF72EEC32),
        Window(0xD2E138C4, 0x00000F00, 0x3AFB5079, 0x898E04E5, 0xE2BA3C2B, 0x000060C0, 0x053A37CD, 0x74458547,
               0xDA9415ED, 0x26380A16, 0x626383A1, 0x4EBF54DE, 0x3835B44B, 0x0000F600, 0x1E84C7A3, 0x98E04D98))
  const ABC_48 := State(Regs(0xBEAD02CA, 0xA01B846C, 0x8714787C, 0x503CA382, 0xFB86C6AB),
        Window(0xDA9415ED, 0x26380A16, 0x626383A1, 0x4EBF54DE, 0x3835B44B, 0x0000F600, 0x1E84C7A3, 0x98E04D98,
               0x651D16A0, 0x62658CA1, 0x458544D6, 0x44584CB7, 0x7BA06619, 0x6380AEA2, 0x0AE55269, 0x627B49A1))
  const ABC_56 := State(Regs(0x5E6456AF, 0x7B71F76D, 0x09FA7C76, 0x792410DB, 0x8E11EB59),
        Window(0x651D16A0, 0x62658CA1, 0x458544D6, 0x44584CB7, 0x7BA06619, 0x6380AEA2, 0x0AE55269, 0x627B49A1,
               0x7CD45C9D, 0x000F0000, 0xFB50753A, 0xEC6765E8, 0xBA3C2BE2, 0x0060C000, 0x3A37CD05, 0x458546F4))
  const ABC_64 := State(Regs(0x6B61C9E1, 0xB66C020B, 0x9523272C, 0xF5D5B051, 0x8FD4B796),
        Window(0x7CD45C9D, 0x000F0000, 0xFB50753A, 0xEC6765E8, 0xBA3C2BE2, 0x0060C000, 0x3A37CD05, 0x458546F4,
               0xB8599DD6, 0x380A1A26, 0x01E02203, 0xE7CC3456, 0xE6E60B69, 0x00F60A00, 0x5795EF4F, 0x822E0879))
  const ABC_72 := State(Regs(0x39859DE7, 0xC199F8C7, 0x8FC96230, 0x125C24F0, 0xDE37534A),
        Window(0xB8599DD6, 0x380A1A26, 0x01E02203, 0xE7CC3456, 0xE6E60B69, 0x00F60A00, 0x5795EF4F, 0x822E0879,
               0x7E577CE2, 0x07EF2103, 0x8544E945, 0xEB39DAB8, 0xC205991A, 0x80AECB63, 0x7D84CA48, 0x7B499B62))
  const ABC_80 := State(Regs(0x42541B35, 0x5738D5E1, 0x21834873, 0x681E6DF6, 0xD8FDF6AD),
        Window(0x7E577CE2, 0x07EF2103, 0x8544E945, 0xEB39DAB8, 0xC205991A, 0x80AECB63, 0x7D84CA48, 0x7B499B62,
               0x8E8010A8, 0x4B5B8A77, 0x3216B69A, 0x0507E88D, 0x705BEE96, 0x60C0FF00, 0xA28362D0, 0x1DA6B91D))

  lemma AbcRounds0()
    ensures Run(ABC_0, 0, 2) == ABC_2
  {
  }

  lemma AbcRounds2()
    ensures Run(ABC_2, 2, 2) == ABC_4
  {
  }

  lemma AbcRounds4()
    ensures Run(ABC_4, 4, 2) == ABC_6
  {
  }

  lemma AbcRounds6()
    ensures Run(ABC_6, 6, 2) == ABC_8
  {
  }

  lemma AbcRounds8()
    ensures Run(ABC_8, 8, 8) == ABC_16
  {
  }

  lemma AbcRounds16()
    ensures Run(ABC_16, 16, 8) == ABC_24
  {
  }

  lemma AbcRounds24()
    ensures Run(ABC_24, 24, 8) == ABC_32
  {
  }

  lemma AbcRounds32()
    ensures Run(ABC_32, 32, 8) == ABC_40
  {
  }

  lemma AbcRounds40()
    ensures Run(ABC_40, 40, 8) == ABC_48
  {
  }

  lemma AbcRounds48()
    ensures Run(ABC_48, 48, 8) == ABC_56
  {
  }

  lemma AbcRounds56()
    ensures Run(ABC_56, 56, 8) == ABC_64
  {
  }

  lemma AbcRounds64()
    ensures Run(ABC_64, 64, 8) == ABC_72
  {
  }

  lemma AbcRounds72()
    ensures Run(ABC_72, 72, 8) == ABC_80
  {
  }

  const ABC_BLOCK: seq<byte> := [0x61, 0x62, 0x63, 0x80] + Zeros(59) + [24]

  lemma AbcPadded()
    ensures [0x61, 0x62, 0x63] + Padding(3) == ABC_BLOCK
  {
    Eighty(24, 0, 24);
    assert Gap(3) == 52;
  }

  /** A length in bits below 2^16, as eight bytes. */
  lemma Eighty(n: nat, hi: byte, lo: byte)
    requires n == hi as int * 256 + lo as int
    ensures Pack(n, 8) == Zeros(6) + [hi, lo]
  {
    ZeroBytes(6);
    OnePacked(n, 7, hi, lo);
    OnePacked(hi, 6, 0, hi);
  }

  lemma {:induction false} ZeroBytes(k: nat)
    ensures Pack(0, k) == Zeros(k)
  {
    if k > 0 {
      ZeroBytes(k - 1);
      OnePacked(0, k - 1, 0, 0);
    }
  }

  lemma AbcWords()
    ensures StateAt(INITIAL, ABC_BLOCK, 0) == ABC_0
  {
    WordIs(ABC_BLOCK, 0, 0x61626380);
    forall t | 1 <= t < 15
      ensures Schedule(ABC_BLOCK, t) == 0
    {
      WordIs(ABC_BLOCK, t, 0);
    }
    WordIs(ABC_BLOCK, 15, 24);
  }

  lemma AbcTo16(h: Regs, blk: seq<byte>)
    requires |blk| == 64 && StateAt(h, blk, 0) == ABC_0
    ensures StateAt(h, blk, 16) == ABC_16
  {
    AbcRounds0();
    AbcRounds2();
    AbcRounds4();
    AbcRounds6();
    AbcRounds8();
    Further(h, blk, 0, 2, ABC_0, ABC_2);
    Further(h, blk, 2, 2, ABC_2, ABC_4);
    Further(h, blk, 4, 2, ABC_4, ABC_6);
    Further(h, blk, 6, 2, ABC_6, ABC_8);
    Further(h, blk, 8, 8, ABC_8, ABC_16);
  }

  lemma AbcTo48(h: Regs, blk: seq<byte>)
    requires |blk| == 64 && StateAt(h, blk, 0) == ABC_0
    ensures StateAt(h, blk, 48) == ABC_48
  {
    AbcTo16(h, blk);
    AbcRounds16();
    AbcRounds24();
    AbcRounds32();
    AbcRounds40();
    Further(h, blk, 16, 8, ABC_16, ABC_24);
    Further(h, blk, 24, 8, ABC_24, ABC_32);
    Further(h, blk, 32, 8, ABC_32, ABC_40);
    Further(h, blk, 40, 8, ABC_40, ABC_48);
  }

  lemma AbcTo80(h: Regs, blk: seq<byte>)
    requires |blk| == 64 && StateAt(h, blk, 0) == ABC_0
    ensures StateAt(h, blk, 80) == ABC_80
  {
    AbcTo48(h, blk);
    AbcRounds48();
    AbcRounds56();
    AbcRounds64();
    AbcRounds72();
    Further(h, blk, 48, 8, ABC_48, ABC_56);
    Further(h, blk, 56, 8, ABC_56, ABC_64);
    Further(h, blk, 64, 8, ABC_64, ABC_72);
    Further(h, blk, 72, 8, ABC_72, ABC_80);
  }

  lemma AbcBlock(h: Regs, blk: seq<byte>)
    requires |blk| == 64 && StateAt(h, blk, 0) == ABC_0
    ensures Block(h, blk) == Regs(0xA9993E36, 0x4706816A, 0xBA3E2571, 0x7850C26C, 0x9CD0D89D)
  {
    AbcTo80(h, blk);
    Summed(h, blk, ABC_0, ABC_80);
  }

  /** The digest of "abc". */
  lemma AbcDigest()
    ensures Sha1([0x61, 0x62, 0x63])
            == [0xA9, 0x99, 0x3E, 0x36] + [0x47, 0x06, 0x81, 0x6A] + [0xBA, 0x3E, 0x25, 0x71]
               + [0x78, 0x50, 0xC2, 0x6C] + [0x9C, 0xD0, 0xD8, 0x9D]
  {
    AbcPadded();
    AbcWords();
    AbcBlock(INITIAL, ABC_BLOCK);
    FoldOne(INITIAL, ABC_BLOCK);
    AbcOutput();
  }

  lemma AbcOutput()
    ensures Output(Regs(0xA9993E36, 0x4706816A, 0xBA3E2571, 0x7850C26C, 0x9CD0D89D))
            == [0xA9, 0x99, 0x3E, 0x36] + [0x47, 0x06, 0x81, 0x6A] + [0xBA, 0x3E, 0x25, 0x71]
               + [0x78, 0x50, 0xC2, 0x6C] + [0x9C, 0xD0, 0xD8, 0x9D]
  {
    BytesOf(0xA9993E36, 0xA9, 0x99, 0x3E, 0x36);
    BytesOf(0x4706816A, 0x47, 0x06, 0x81, 0x6A);
    BytesOf(0xBA3E2571, 0xBA, 0x3E, 0x25, 0x71);
    BytesOf(0x7850C26C, 0x78, 0x50, 0xC2, 0x6C);
    BytesOf(0x9CD0D89D, 0x9C, 0xD0, 0xD8, 0x9D);
  }

  // ---------------------------------------------------------------- the sample key, first block

  const FIRST_0 := State(Regs(0x67452301, 0xEFCDAB89, 0x98BADCFE, 0x10325476, 0xC3D2E1F0),
        Window(0x6447686C, 0x49484E68, 0x62584273, 0x5A534275, 0x6232356A, 0x5A513D3D, 0x32353845, 0x41464135,
               0x2D453931, 0x342D3437, 0x44412D39, 0x3543412D, 0x43354142, 0x30444338, 0x35423131, 0x80000000))
  const FIRST_8 := State(Regs(0x2E0CE601, 0x73553E84, 0x5CC82E5A, 0xB7631F04, 0x14F80E6B),
        Window(0x2D453931, 0x342D3437, 0x44412D39, 0x3543412D, 0x43354142, 0x30444338, 0x35423131, 0x80000000,
               0x363CA02C, 0x24E81236, 0x8856B441, 0x06FB3C92, 0x6FB4BCB6, 0x460B16E3, 0x599219AE, 0x35BF9369))
  const FIRST_16 := State(Regs(0xA004C468, 0xE922CC9D, 0xAB86825B, 0xD86F6CAF, 0x8D33AE61),
        Window(0x363CA02C, 0x24E81236, 0x8856B441, 0x06FB3C92, 0x6FB4BCB6, 0x460B16E3, 0x599219AE, 0x35BF9369,
               0x3267458E, 0xF828FD04, 0x753A96A7, 0x6336F612, 0xC3D66383, 0x06EB86F9, 0x73B4FD42, 0xA503C5B8))
  const FIRST_24 := State(Regs(0x250E26EF, 0xBEAFD554, 0xB44BC2D5, 0xD4611C28, 0x0246AE5F),
        Window(0x3267458E, 0xF828FD04, 0x753A96A7, 0x6336F612, 0xC3D66383, 0x06EB86F9, 0x73B4FD42, 0xA503C5B8,
               0x15CDAE35, 0x531E5DC5, 0x6FB6B7D0, 0x6C16E4AC, 0x4DDD36BD, 0x35D36946, 0xE8AE8B9C, 0x4A933AD0))
  const FIRST_32 := State(Regs(0xA6680A1F, 0xB7DABC8B, 0x4206D8F9, 0xC6AEC70D, 0x95C7DF60),
        Window(0x15CDAE35, 0x531E5DC5, 0x6FB6B7D0, 0x6C16E4AC, 0x4DDD36BD, 0x35D36946, 0xE8AE8B9C, 0x4A933AD0,
               0xCE8628B4, 0x415DBA9E, 0x2792F049, 0x8E9B79E7, 0x79C425C5, 0x6353B49D, 0x00994218, 0x8A950ED1))
  const FIRST_40 := State(Regs(0x2BA2C83E, 0xD0869081, 0x1A1D8209, 0xD3334889, 0x2779E4F2),
        Window(0xCE8628B4, 0x415DBA9E, 0x2792F049, 0x8E9B79E7, 0x79C425C5, 0x6353B49D, 0x00994218, 0x8A950ED1,
               0xAF5D0B99, 0xFD9883DE, 0x1ED8FFEB, 0xF007FF28, 0x425E3674, 0x059631C0, 0xAD6C3C31, 0x860B71D7))
  const FIRST_48 := State(Regs(0xABE1748A, 0xDEE4B7A8, 0x5CBFCCD3, 0x97D7CD14, 0xDB71A8F5),
        Window(0xAF5D0B99, 0xFD9883DE, 0x1ED8FFEB, 0xF007FF28, 0x425E3674, 0x059631C0, 0xAD6C3C31, 0x860B71D7,
               0x87BFC548, 0x3E64F92D, 0x8D0AB761, 0x34E1EE35, 0x0ACF5108, 0xC2B479DA, 0x6C93370A, 0xF7935BA1))
  const FIRST_56 := State(Regs(0x7E1242F2, 0x50C9104C, 0x131822B1, 0x49B1A4E5, 0x4439FD9C),
        Window(0x87BFC548, 0x3E64F92D, 0x8D0AB761, 0x34E1EE35, 0x0ACF5108, 0xC2B479DA, 0x6C93370A, 0xF7935BA1,
               0xE91C91C1, 0xBED165A2, 0x4C3E4ABE, 0x50D96238, 0xB6587DDE, 0x1A2EE6E6, 0x2D335896, 0xF3495D0B))
  const FIRST_64 := State(Regs(0x685E2FF6, 0x840054D3, 0xE43C0363, 0x3350802E, 0x921CB616),
        Window(0xE91C91C1, 0xBED165A2, 0x4C3E4ABE, 0x50D96238, 0xB6587DDE, 0x1A2EE6E6, 0x2D335896, 0xF3495D0B,
               0xF30E0A1D, 0x32CE5459, 0x7165E3B8, 0xAB05FF94, 0xC5949F0B, 0xBCD84E4A, 0x07720392, 0xFF3FF806))
  const FIRST_72 := State(Regs(0x7E65E044, 0x80D59773, 0x81CE06DF, 0xA59B8126, 0x33E1963B),
        Window(0xF30E0A1D, 0x32CE5459, 0x7165E3B8, 0xAB05FF94, 0xC5949F0B, 0xBCD84E4A, 0x07720392, 0xFF3FF806,
               0xD5E93E51, 0xB768A0A3, 0xE87859BC, 0x68368A36, 0xD32E35C1, 0x7B8F5837, 0x62F3B65F, 0xDB2D892B))
  const FIRST_80 := State(Regs(0xF48A5426, 0x835995E1, 0x25C11EFB, 0x4A45C402, 0x9A73C2F2),
        Window(0xD5E93E51, 0xB768A0A3, 0xE87859BC, 0x68368A36, 0xD32E35C1, 0x7B8F5837, 0x62F3B65F, 0xDB2D892B,
               0x581B1F86, 0x98A17A62, 0x0F495849, 0x4FE048DC, 0x12D3A675, 0x6E436C64, 0xFF118681, 0x0352EFF7))

  lemma FirstRounds0()
    ensures Run(FIRST_0, 0, 8) == FIRST_8
  {
  }

  lemma FirstRounds8()
    ensures Run(FIRST_8, 8, 8) == FIRST_16
  {
  }

  lemma FirstRounds16()
    ensures Run(FIRST_16, 16, 8) == FIRST_24
  {
  }

  lemma FirstRounds24()
    ensures Run(FIRST_24, 24, 8) == FIRST_32
  {
  }

  lemma FirstRounds32()
    ensures Run(FIRST_32, 32, 8) == FIRST_40
  {
  }

  lemma FirstRounds40()
    ensures Run(FIRST_40, 40, 8) == FIRST_48
  {
  }

  lemma FirstRounds48()
    ensures Run(FIRST_48, 48, 8) == FIRST_56
  {
  }

  lemma FirstRounds56()
    ensures Run(FIRST_56, 56, 8) == FIRST_64
  {
  }

  lemma FirstRounds64()
    ensures Run(FIRST_64, 64, 8) == FIRST_72
  {
  }

  lemma FirstRounds72()
    ensures Run(FIRST_72, 72, 8) == FIRST_80
  {
  }

  // ---------------------------------------------------------------- the sample key, second block

  const SECOND_0 := State(Regs(0x5BCF7727, 0x7327416A, 0xBE7BFBF9, 0x5A781878, 0x5E46A4E2),
        Window(0x00000000, 0x00000000, 0x00000000, 0x00000000, 0x00000000, 0x00000000, 0x00000000, 0x00000000,
               0x00000000, 0x00000000, 0x00000000, 0x00000000, 0x00000000, 0x00000000, 0x00000000, 0x000001E0))
  const SECOND_2 := State(Regs(0x186006B8, 0x6D335CDE, 0xD6F3DDC9, 0x9CC9D05A, 0xBE7BFBF9),
        Window(0x00000000, 0x00000000, 0x00000000, 0x00000000, 0x00000000, 0x00000000, 0x00000000, 0x00000000,
               0x00000000, 0x00000000, 0x00000000, 0x00000000, 0x00000000, 0x000001E0, 0x00000000, 0x00000000))
  const SECOND_4 := State(Regs(0x15855523, 0xF9FB295D, 0x061801AE, 0x9B4CD737, 0xD6F3DDC9),
        Window(0x00000000, 0x00000000, 0x00000000, 0x00000000, 0x00000000, 0x00000000, 0x00000000, 0x00000000,
               0x00000000, 0x00000000, 0x00000000, 0x000001E0, 0x00000000, 0x00000000, 0x000003C0, 0x00000000))
  const SECOND_6 := State(Regs(0x93A5EFBB, 0xE43DD2F2, 0xC5615548, 0x7E7ECA57, 0x061801AE),
        Window(0x00000000, 0x00000000, 0x00000000, 0x00000000, 0x00000000, 0x00000000, 0x00000000, 0x00000000,
               0x00000000, 0x000001E0, 0x00000000, 0x00000000, 0x000003C0, 0x00000000, 0x00000000, 0x00000780))
  const SECOND_8 := State(Regs(0x25C018BE, 0xB3BBCAFE, 0xE4E97BEE, 0xB90F74BC, 0xC5615548),
        Window(0x00000000, 0x00000000, 0x00000000, 0x00000000, 0x00000000, 0x00000000, 0x00000000, 0x000001E0,
               0x00000000, 0x00000000, 0x000003C0, 0x00000000, 0x00000000, 0x00000780, 0x00000000, 0x000003C0))
  const SECOND_10 := State(Regs(0x0B0814C3, 0x80946593, 0x8970062F, 0xACEEF2BF, 0xE4E97BEE),
        Window(0x00000000, 0x00000000, 0x00000000, 0x00000000, 0x00000000, 0x000001E0, 0x00000000, 0x00000000,
               0x000003C0, 0x00000000, 0x00000000, 0x00000780, 0x00000000, 0x000003C0, 0x00000F00, 0x00000000))
  const SECOND_12 := State(Regs(0x250601AD, 0x4CE92417, 0xC2C20530, 0xE0251964, 0x8970062F),
        Window(0x00000000, 0x00000000, 0x00000000, 0x000001E0, 0x00000000, 0x00000000, 0x000003C0, 0x00000000,
               0x00000000, 0x00000780, 0x00000000, 0x000003C0, 0x00000F00, 0x00000000, 0x00000000, 0x00001E00))
  const SECOND_16 := State(Regs(0x986DF268, 0x990B7BE7, 0xAB50FCE7, 0x195DB4B7, 0x4941806B),
        Window(0x00000000, 0x00000000, 0x000003C0, 0x00000000, 0x00000000, 0x00000780, 0x00000000, 0x000003C0,
               0x00000F00, 0x00000000, 0x00000000, 0x00001E00, 0x00000000, 0x00000CC0, 0x00003C00, 0x00000440))
  const SECOND_24 := State(Regs(0x53C73650, 0x3E5179E7, 0x103EF3E6, 0xC48C56CA, 0x4A8022D4),
        Window(0x00000F00, 0x00000000, 0x00000000, 0x00001E00, 0x00000000, 0x00000CC0, 0x00003C00, 0x00000440,
               0x00000000, 0x00007800, 0x00000F00, 0x00003300, 0x0000F000, 0x00000F00, 0x00000000, 0x0001EF00))
  const SECOND_32 := State(Regs(0x3CF6EB58, 0xF4DDD7B7, 0xC90FB815, 0xBD5F2D4F, 0xE4C9F7DB),
        Window(0x00000000, 0x00007800, 0x00000F00, 0x00003300, 0x0000F000, 0x00000F00, 0x00000000, 0x0001EF00,
               0x00000000, 0x0000CC00, 0x0003C000, 0x00004380, 0x00000000, 0x00078F00, 0x0000FF00, 0x00032680))
  const SECOND_40 := State(Regs(0x6F698F1A, 0xC6FF0CD3, 0xDE5AB7BC, 0x5F6F3CBB, 0x1DA48A85),
        Window(0x00000000, 0x0000CC00, 0x0003C000, 0x00004380, 0x00000000, 0x00078F00, 0x0000FF00, 0x00032680,
               0x000F0000, 0x0000F000, 0x00003300, 0x001EFF00, 0x00000000, 0x000CB800, 0x003C0000, 0x00040B00))
  const SECOND_48 := State(Regs(0xA3EF857E, 0xC8CDA3DA, 0xCEF6480E, 0xFF1EF4D7, 0xC7A4D2B3),
        Window(0x000F0000, 0x0000F000, 0x00003300, 0x001EFF00, 0x00000000, 0x000CB800, 0x003C0000, 0x00040B00,
               0x0000F000, 0x0078FF00, 0x000FF000, 0x00338700, 0x00F00000, 0x000FC300, 0x0000F000, 0x01EFBB00))
  const SECOND_56 := State(Regs(0xA1B68141, 0x660DD0B1, 0x0B1CEF5E, 0xE795018D, 0xD7F8A8F6),
        Window(0x0000F000, 0x0078FF00, 0x000FF000, 0x00338700, 0x00F00000, 0x000FC300, 0x0000F000, 0x01EFBB00,
               0x00000000, 0x00CC0000, 0x03C0F000, 0x00438000, 0x00000000, 0x078F0000, 0x00FF0000, 0x03269E00))
  const SECOND_64 := State(Regs(0xA5937450, 0xD5EF1ED7, 0xC444CBE3, 0xDDD22788, 0x558467C6),
        Window(0x00000000, 0x00CC0000, 0x03C0F000, 0x00438000, 0x00000000, 0x078F0000, 0x00FF0000, 0x03269E00,
               0x0F000000, 0x00F0F000, 0x00333C00, 0x1EFF8800, 0x00000000, 0x0CB88800, 0x3C00F000, 0x040A4A00))
  const SECOND_72 := State(Regs(0xC90888CA, 0xF6D1AFEE, 0x6FCE9FE5, 0x538D8F6E, 0x025E9447),
        Window(0x0F000000, 0x00F0F000, 0x00333C00, 0x1EFF8800, 0x00000000, 0x0CB88800, 0x3C00F000, 0x040A4A00,
               0x00F0F000, 0x78FF0000, 0x0FF30C00, 0x3387F000, 0xF0000000, 0x0FC43400, 0x00F00000, 0xEFB84801))
  const SECOND_80 := State(Regs(0x57AAD805, 0x4D3B0DAC, 0xD27A4A0D, 0x74C040CD, 0x54782008),
        Window(0x00F0F000, 0x78FF0000, 0x0FF30C00, 0x3387F000, 0xF0000000, 0x0FC43400, 0x00F00000, 0xEFB84801,
               0x000FF000, 0xCC00F000, 0xC0F0F003, 0x439E0000, 0x00000000, 0x8F0C0C07, 0xFF3C0000, 0x269A0403))

  lemma SecondRounds0()
    ensures Run(SECOND_0, 0, 2) == SECOND_2
  {
  }

  lemma SecondRounds2()
    ensures Run(SECOND_2, 2, 2) == SECOND_4
  {
  }

  lemma SecondRounds4()
    ensures Run(SECOND_4, 4, 2) == SECOND_6
  {
  }

  lemma SecondRounds6()
    ensures Run(SECOND_6, 6, 2) == SECOND_8
  {
  }

  lemma SecondRounds8()
    ensures Run(SECOND_8, 8, 2) == SECOND_10
  {
  }

  lemma SecondRounds10()
    ensures Run(SECOND_10, 10, 2) == SECOND_12
  {
  }

  lemma SecondRounds12()
    ensures Run(SECOND_12, 12, 4) == SECOND_16
  {
  }

  lemma SecondRounds16()
    ensures Run(SECOND_16, 16, 8) == SECOND_24
  {
  }

  lemma SecondRounds24()
    ensures Run(SECOND_24, 24, 8) == SECOND_32
  {
  }

  lemma SecondRounds32()
    ensures Run(SECOND_32, 32, 8) == SECOND_40
  {
  }

  lemma SecondRounds40()
    ensures Run(SECOND_40, 40, 8) == SECOND_48
  {
  }

  lemma SecondRounds48()
    ensures Run(SECOND_48, 48, 8) == SECOND_56
  {
  }

  lemma SecondRounds56()
    ensures Run(SECOND_56, 56, 8) == SECOND_64
  {
  }

  lemma SecondRounds64()
    ensures Run(SECOND_64, 64, 8) == SECOND_72
  {
  }

  lemma SecondRounds72()
    ensures Run(SECOND_72, 72, 8) == SECOND_80
  {
  }

  /** The digest state between the two blocks. */
  const HALFWAY := Regs(0x5BCF7727, 0x7327416A, 0xBE7BFBF9, 0x5A781878, 0x5E46A4E2)

  /** Three words from twelve bytes. */
  lemma WordHere(blk: seq<byte>, t: nat, from: nat, p: seq<byte>, w: bv32)
    requires |blk| == 64 && t < 16 && from == 4 * t && |p| == 4 && blk[from..from + 4] == p
    requires Quad(p[0], p[1], p[2], p[3]) == w as int
    ensures Schedule(blk, t) == w
  {
    FourBytes(p, w);
  }

  lemma ThreeQuads(blk: seq<byte>, from: nat, p0: seq<byte>, p1: seq<byte>, p2: seq<byte>)
    requires from + 12 <= |blk| && |p0| == |p1| == |p2| == 4 && blk[from..from + 12] == p0 + p1 + p2
    ensures blk[from..from + 4] == p0 && blk[from + 4..from + 8] == p1 && blk[from + 8..from + 12] == p2
  {
    var s := blk[from..from + 12];
    assert s[..4] == p0 && s[4..8] == p1 && s[8..12] == p2;
    Within(blk, from, 12, 0, 4);
    Within(blk, from, 12, 4, 8);
    Within(blk, from, 12, 8, 12);
  }

  lemma Within(blk: seq<byte>, from: nat, n: nat, a: nat, b: nat)
    requires from + n <= |blk| && a <= b <= n
    ensures blk[from..from + n][a..b] == blk[from + a..from + b]
  {
    var s := blk[from..from + n];
    assert forall k :: a <= k < b ==> s[k] == blk[from + k];
  }

  lemma FirstWords0(blk: seq<byte>)
    requires |blk| == 64 && blk[0..12] == Ascii("dGhlIHNhbXBs")
    ensures Schedule(blk, 0) == 0x6447686C && Schedule(blk, 1) == 0x49484E68 && Schedule(blk, 2) == 0x62584273
  {
    Text0();
    ThreeQuads(blk, 0, [0x64, 0x47, 0x68, 0x6C], [0x49, 0x48, 0x4E, 0x68], [0x62, 0x58, 0x42, 0x73]);
    WordHere(blk, 0, 0, [0x64, 0x47, 0x68, 0x6C], 0x6447686C);
    WordHere(blk, 1, 4, [0x49, 0x48, 0x4E, 0x68], 0x49484E68);
    WordHere(blk, 2, 8, [0x62, 0x58, 0x42, 0x73], 0x62584273);
  }

  lemma Text0()
    ensures Ascii("dGhlIHNhbXBs") == [0x64, 0x47, 0x68, 0x6C] + [0x49, 0x48, 0x4E, 0x68] + [0x62, 0x58, 0x42, 0x73]
  {
  }

  lemma FirstWords3(blk: seq<byte>)
    requires |blk| == 64 && blk[12..24] == Ascii("ZSBub25jZQ==")
    ensures Schedule(blk, 3) == 0x5A534275 && Schedule(blk, 4) == 0x6232356A && Schedule(blk, 5) == 0x5A513D3D
  {
    Text3();
    ThreeQuads(blk, 12, [0x5A, 0x53, 0x42, 0x75], [0x62, 0x32, 0x35, 0x6A], [0x5A, 0x51, 0x3D, 0x3D]);
    WordHere(blk, 3, 12, [0x5A, 0x53, 0x42, 0x75], 0x5A534275);
    WordHere(blk, 4, 16, [0x62, 0x32, 0x35, 0x6A], 0x6232356A);
    WordHere(blk, 5, 20, [0x5A, 0x51, 0x3D, 0x3D], 0x5A513D3D);
  }

  lemma Text3()
    ensures Ascii("ZSBub25jZQ==") == [0x5A, 0x53, 0x42, 0x75] + [0x62, 0x32, 0x35, 0x6A] + [0x5A, 0x51, 0x3D, 0x3D]
  {
  }

  lemma FirstWords6(blk: seq<byte>)
    requires |blk| == 64 && blk[24..36] == Ascii("258EAFA5-E91")
    ensures Schedule(blk, 6) == 0x32353845 && Schedule(blk, 7) == 0x41464135 && Schedule(blk, 8) == 0x2D453931
  {
    Text6();
    ThreeQuads(blk, 24, [0x32, 0x35, 0x38, 0x45], [0x41, 0x46, 0x41, 0x35], [0x2D, 0x45, 0x39, 0x31]);
    WordHere(blk, 6, 24, [0x32, 0x35, 0x38, 0x45], 0x32353845);
    WordHere(blk, 7, 28, [0x41, 0x46, 0x41, 0x35], 0x41464135);
    WordHere(blk, 8, 32, [0x2D, 0x45, 0x39, 0x31], 0x2D453931);
  }

  lemma Text6()
    ensures Ascii("258EAFA5-E91") == [0x32, 0x35, 0x38, 0x45] + [0x41, 0x46, 0x41, 0x35] + [0x2D, 0x45, 0x39, 0x31]
  {
  }

  lemma FirstWords9(blk: seq<byte>)
    requires |blk| == 64 && blk[36..48] == Ascii("4-47DA-95CA-")
    ensures Schedule(blk, 9) == 0x342D3437 && Schedule(blk, 10) == 0x44412D39 && Schedule(blk, 11) == 0x3543412D
  {
    Text9();
    ThreeQuads(blk, 36, [0x34, 0x2D, 0x34, 0x37], [0x44, 0x41, 0x2D, 0x39], [0x35, 0x43, 0x41, 0x2D]);
    WordHere(blk, 9, 36, [0x34, 0x2D, 0x34, 0x37], 0x342D3437);
    WordHere(blk, 10, 40, [0x44, 0x41, 0x2D, 0x39], 0x44412D39);
    WordHere(blk, 11, 44, [0x35, 0x43, 0x41, 0x2D], 0x3543412D);
  }

  lemma Text9()
    ensures Ascii("4-47DA-95CA-") == [0x34, 0x2D, 0x34, 0x37] + [0x44, 0x41, 0x2D, 0x39] + [0x35, 0x43, 0x41, 0x2D]
  {
  }

  lemma FirstWords12(blk: seq<byte>)
    requires |blk| == 64 && blk[48..60] == Ascii("C5AB0DC85B11")
    ensures Schedule(blk, 12) == 0x43354142 && Schedule(blk, 13) == 0x30444338 && Schedule(blk, 14) == 0x35423131
  {
    Text12();
    ThreeQuads(blk, 48, [0x43, 0x35, 0x41, 0x42], [0x30, 0x44, 0x43, 0x38], [0x35, 0x42, 0x31, 0x31]);
    WordHere(blk, 12, 48, [0x43, 0x35, 0x41, 0x42], 0x43354142);
    WordHere(blk, 13, 52, [0x30, 0x44, 0x43, 0x38], 0x30444338);
    WordHere(blk, 14, 56, [0x35, 0x42, 0x31, 0x31], 0x35423131);
  }

  lemma Text12()
    ensures Ascii("C5AB0DC85B11") == [0x43, 0x35, 0x41, 0x42] + [0x30, 0x44, 0x43, 0x38] + [0x35, 0x42, 0x31, 0x31]
  {
  }

  lemma FirstWords(blk: seq<byte>)
    requires |blk| == 64 && blk[..60] == Salted(Ascii("dGhlIHNhbXBsZSBub25jZQ==")) && blk[60..] == [0x80, 0, 0, 0]
    ensures StateAt(INITIAL, blk, 0) == FIRST_0
  {
    SampleText(blk);
    FirstWords0(blk);
    FirstWords3(blk);
    FirstWords6(blk);
    FirstWords9(blk);
    FirstWords12(blk);
    LastWord(blk);
  }

  lemma LastWord(blk: seq<byte>)
    requires |blk| == 64 && blk[60..] == [0x80, 0, 0, 0]
    ensures Schedule(blk, 15) == 0x80000000
  {
    var s := blk[60..];
    assert blk[60] == s[0] && blk[61] == s[1] && blk[62] == s[2] && blk[63] == s[3];
    WordIs(blk, 15, 0x80000000);
  }

  lemma SampleText(blk: seq<byte>)
    requires |blk| == 64 && blk[..60] == Salted(Ascii("dGhlIHNhbXBsZSBub25jZQ=="))
    ensures blk[0..12] == Ascii("dGhlIHNhbXBs") && blk[12..24] == Ascii("ZSBub25jZQ==")
    ensures blk[24..36] == Ascii("258EAFA5-E91") && blk[36..48] == Ascii("4-47DA-95CA-")
    ensures blk[48..60] == Ascii("C5AB0DC85B11")
  {
    Cut24("dGhlIHNhbXBsZSBub25jZQ==", "dGhlIHNhbXBs", "ZSBub25jZQ==");
    GuidText();
    FivePieces(blk, Ascii("dGhlIHNhbXBs"), Ascii("ZSBub25jZQ=="),
               Ascii("258EAFA5-E91"), Ascii("4-47DA-95CA-"), Ascii("C5AB0DC85B11"));
  }

  lemma GuidText()
    ensures Ascii(GUID) == Ascii("258EAFA5-E91") + Ascii("4-47DA-95CA-") + Ascii("C5AB0DC85B11")
  {
    Cut36(GUID, "258EAFA5-E91", "4-47DA-95CA-", "C5AB0DC85B11");
  }

  lemma Cut24(s: string, a: string, b: string)
    requires s == a + b
    ensures Ascii(s) == Ascii(a) + Ascii(b)
  {
  }

  lemma Cut36(s: string, a: string, b: string, c: string)
    requires s == a + b + c
    ensures Ascii(s) == Ascii(a) + Ascii(b) + Ascii(c)
  {
  }

  lemma FivePieces(blk: seq<byte>, a: seq<byte>, b: seq<byte>, c: seq<byte>, d: seq<byte>, e: seq<byte>)
    requires |blk| == 64 && |a| == 12 && |b| == 12 && |c| == 12 && |d| == 12 && |e| == 12
    requires blk[..60] == (a + b) + (c + d + e)
    ensures blk[0..12] == a && blk[12..24] == b && blk[24..36] == c && blk[36..48] == d && blk[48..60] == e
  {
    var all := (a + b) + (c + d + e);
    assert blk[0..12] == all[0..12] && blk[12..24] == all[12..24] && blk[24..36] == all[24..36];
    assert blk[36..48] == all[36..48] && blk[48..60] == all[48..60];
  }

  lemma FirstTo16(h: Regs, blk: seq<byte>)
    requires |blk| == 64 && StateAt(h, blk, 0) == FIRST_0
    ensures StateAt(h, blk, 16) == FIRST_16
  {
    FirstRounds0();
    FirstRounds8();
    Further(h, blk, 0, 8, FIRST_0, FIRST_8);
    Further(h, blk, 8, 8, FIRST_8, FIRST_16);
  }

  lemma FirstTo48(h: Regs, blk: seq<byte>)
    requires |blk| == 64 && StateAt(h, blk, 0) == FIRST_0
    ensures StateAt(h, blk, 48) == FIRST_48
  {
    FirstTo16(h, blk);
    FirstRounds16();
    FirstRounds24();
    FirstRounds32();
    FirstRounds40();
    Further(h, blk, 16, 8, FIRST_16, FIRST_24);
    Further(h, blk, 24, 8, FIRST_24, FIRST_32);
    Further(h, blk, 32, 8, FIRST_32, FIRST_40);
    Further(h, blk, 40, 8, FIRST_40, FIRST_48);
  }

  lemma FirstTo80(h: Regs, blk: seq<byte>)
    requires |blk| == 64 && StateAt(h, blk, 0) == FIRST_0
    ensures StateAt(h, blk, 80) == FIRST_80
  {
    FirstTo48(h, blk);
    FirstRounds48();
    FirstRounds56();
    FirstRounds64();
    FirstRounds72();
    Further(h, blk, 48, 8, FIRST_48, FIRST_56);
    Further(h, blk, 56, 8, FIRST_56, FIRST_64);
    Further(h, blk, 64, 8, FIRST_64, FIRST_72);
    Further(h, blk, 72, 8, FIRST_72, FIRST_80);
  }

  lemma FirstBlock(h: Regs, blk: seq<byte>)
    requires |blk| == 64 && StateAt(h, blk, 0) == FIRST_0
    ensures Block(h, blk) == HALFWAY
  {
    FirstTo80(h, blk);
    Summed(h, blk, FIRST_0, FIRST_80);
  }

  lemma SecondWords(blk: seq<byte>)
    requires blk == Zeros(62) + [0x01, 0xE0]
    ensures StateAt(HALFWAY, blk, 0) == SECOND_0
  {
    forall t | 0 <= t < 15
      ensures Schedule(blk, t) == 0
    {
      WordIs(blk, t, 0);
    }
    WordIs(blk, 15, 0x1E0);
  }

  lemma SecondTo16(h: Regs, blk: seq<byte>)
    requires |blk| == 64 && StateAt(h, blk, 0) == SECOND_0
    ensures StateAt(h, blk, 16) == SECOND_16
  {
    SecondRounds0();
    SecondRounds2();
    SecondRounds4();
    SecondRounds6();
    SecondRounds8();
    SecondRounds10();
    SecondRounds12();
    Further(h, blk, 0, 2, SECOND_0, SECOND_2);
    Further(h, blk, 2, 2, SECOND_2, SECOND_4);
    Further(h, blk, 4, 2, SECOND_4, SECOND_6);
    Further(h, blk, 6, 2, SECOND_6, SECOND_8);
    Further(h, blk, 8, 2, SECOND_8, SECOND_10);
    Further(h, blk, 10, 2, SECOND_10, SECOND_12);
    Further(h, blk, 12, 4, SECOND_12, SECOND_16);
  }

  lemma SecondTo48(h: Regs, blk: seq<byte>)
    requires |blk| == 64 && StateAt(h, blk, 0) == SECOND_0
    ensures StateAt(h, blk, 48) == SECOND_48
  {
    SecondTo16(h, blk);
    SecondRounds16();
    SecondRounds24();
    SecondRounds32();
    SecondRounds40();
    Further(h, blk, 16, 8, SECOND_16, SECOND_24);
    Further(h, blk, 24, 8, SECOND_24, SECOND_32);
    Further(h, blk, 32, 8, SECOND_32, SECOND_40);
    Further(h, blk, 40, 8, SECOND_40, SECOND_48);
  }

  lemma SecondTo80(h: Regs, blk: seq<byte>)
    requires |blk| == 64 && StateAt(h, blk, 0) == SECOND_0
    ensures StateAt(h, blk, 80) == SECOND_80
  {
    SecondTo48(h, blk);
    SecondRounds48();
    SecondRounds56();
    SecondRounds64();
    SecondRounds72();
    Further(h, blk, 48, 8, SECOND_48, SECOND_56);
    Further(h, blk, 56, 8, SECOND_56, SECOND_64);
    Further(h, blk, 64, 8, SECOND_64, SECOND_72);
    Further(h, blk, 72, 8, SECOND_72, SECOND_80);
  }

  lemma SecondBlock(h: Regs, blk: seq<byte>)
    requires |blk| == 64 && StateAt(h, blk, 0) == SECOND_0
    ensures Block(h, blk) == Regs(0xB37A4F2C, 0xC0624F16, 0x90F64606, 0xCF385945, 0xB2BEC4EA)
  {
    SecondTo80(h, blk);
    Summed(h, blk, SECOND_0, SECOND_80);
  }

  lemma TwoFolds(h: Regs, a: seq<byte>, b: seq<byte>)
    requires |a| == 64 && |b| == 64
    ensures Fold(h, a + b) == Block(Block(h, a), b)
  {
    assert (a + b)[..64] == a && (a + b)[64..] == b;
    FoldOne(Block(h, a), b);
  }

  lemma SixtyPadded(m: seq<byte>, first: seq<byte>, second: seq<byte>)
    requires |m| == 60 && first == m + [0x80, 0, 0, 0] && second == Zeros(62) + [0x01, 0xE0]
    ensures m + Padding(60) == first + second
  {
    Eighty(480, 0x01, 0xE0);
    assert Gap(60) == 59;
    assert Zeros(59) == [0, 0, 0] + Zeros(56) && Zeros(62) == Zeros(56) + Zeros(6);
  }

  lemma TwoBlockMessage(m: seq<byte>)
    requires m == Salted(Ascii("dGhlIHNhbXBsZSBub25jZQ=="))
    ensures |m| == 60 && Fold(INITIAL, m + Padding(60))
                         == Regs(0xB37A4F2C, 0xC0624F16, 0x90F64606, 0xCF385945, 0xB2BEC4EA)
  {
    var first, second := m + [0x80, 0, 0, 0], Zeros(62) + [0x01, 0xE0];
    assert first[..60] == m && first[60..] == [0x80, 0, 0, 0];
    SixtyPadded(m, first, second);
    TwoFolds(INITIAL, first, second);
    FirstWords(first);
    FirstBlock(INITIAL, first);
    SecondWords(second);
    SecondBlock(HALFWAY, second);
  }

  /** A message of two blocks: the sample key of section 1.3 of RFC 6455, and the GUID behind it. */
  lemma SampleDigest()
    ensures Sha1(Salted(Ascii("dGhlIHNhbXBsZSBub25jZQ==")))
            == [0xB3, 0x7A, 0x4F, 0x2C] + [0xC0, 0x62, 0x4F, 0x16] + [0x90, 0xF6, 0x46, 0x06]
               + [0xCF, 0x38, 0x59, 0x45] + [0xB2, 0xBE, 0xC4, 0xEA]
  {
    var m := Salted(Ascii("dGhlIHNhbXBsZSBub25jZQ=="));
    TwoBlockMessage(m);
    SampleOutput();
  }

  lemma SampleOutput()
    ensures Output(Regs(0xB37A4F2C, 0xC0624F16, 0x90F64606, 0xCF385945, 0xB2BEC4EA))
            == [0xB3, 0x7A, 0x4F, 0x2C] + [0xC0, 0x62, 0x4F, 0x16] + [0x90, 0xF6, 0x46, 0x06]
               + [0xCF, 0x38, 0x59, 0x45] + [0xB2, 0xBE, 0xC4, 0xEA]
  {
    BytesOf(0xB37A4F2C, 0xB3, 0x7A, 0x4F, 0x2C);
    BytesOf(0xC0624F16, 0xC0, 0x62, 0x4F, 0x16);
    BytesOf(0x90F64606, 0x90, 0xF6, 0x46, 0x06);
    BytesOf(0xCF385945, 0xCF, 0x38, 0x59, 0x45);
    BytesOf(0xB2BEC4EA, 0xB2, 0xBE, 0xC4, 0xEA);
  }

  // ---------------------------------------------------------------- the answer

  /** Three bytes at i are four characters. */
  lemma GroupAt(d: seq<byte>, i: nat, d0: nat, d1: nat, d2: nat, d3: nat)
    requires i + 3 <= |d| && d0 < 64 && d1 < 64 && d2 < 64 && d3 < 64
    requires Group(d[i], d[i + 1], d[i + 2]) == d0 * 0x40000 + d1 * 0x1000 + d2 * 64 + d3
    ensures Base64(d[i..]) == [Digit(d0), Digit(d1), Digit(d2), Digit(d3)] + Base64(d[i + 3..])
  {
    var v, s := Group(d[i], d[i + 1], d[i + 2]), d[i..];
    FourDigits(v);
    Sixties(v, d0, d1, d2, d3);
    assert s[3..] == d[i + 3..];
  }

  lemma Sixties(v: nat, d0: nat, d1: nat, d2: nat, d3: nat)
    requires d0 < 64 && d1 < 64 && d2 < 64 && d3 < 64
    requires v == d0 * 0x40000 + d1 * 0x1000 + d2 * 64 + d3
    ensures v / 0x40000 % 64 == d0 && v / 0x1000 % 64 == d1 && v / 64 % 64 == d2 && v % 64 == d3
  {
    Quotient(v, 64, d0 * 0x1000 + d1 * 64 + d2, d3);
    Quotient(v, 0x1000, d0 * 64 + d1, d2 * 64 + d3);
    Quotient(v, 0x40000, d0, d1 * 0x1000 + d2 * 64 + d3);
  }

  lemma Piece0(d: seq<byte>)
    requires |d| == 20 && d[0] == 0xB3 && d[1] == 0x7A && d[2] == 0x4F
    ensures Base64(d[0..]) == "s3pP" + Base64(d[3..])
  {
    GroupAt(d, 0, 44, 55, 41, 15);
    assert Digit(44) == 's' && Digit(55) == '3' && Digit(41) == 'p' && Digit(15) == 'P';
  }

  lemma Piece1(d: seq<byte>)
    requires |d| == 20 && d[3] == 0x2C && d[4] == 0xC0 && d[5] == 0x62
    ensures Base64(d[3..]) == "LMBi" + Base64(d[6..])
  {
    GroupAt(d, 3, 11, 12, 1, 34);
    assert Digit(11) == 'L' && Digit(12) == 'M' && Digit(1) == 'B' && Digit(34) == 'i';
  }

  lemma Piece2(d: seq<byte>)
    requires |d| == 20 && d[6] == 0x4F && d[7] == 0x16 && d[8] == 0x90
    ensures Base64(d[6..]) == "TxaQ" + Base64(d[9..])
  {
    GroupAt(d, 6, 19, 49, 26, 16);
    assert Digit(19) == 'T' && Digit(49) == 'x' && Digit(26) == 'a' && Digit(16) == 'Q';
  }

  lemma Piece3(d: seq<byte>)
    requires |d| == 20 && d[9] == 0xF6 && d[10] == 0x46 && d[11] == 0x06
    ensures Base64(d[9..]) == "9kYG" + Base64(d[12..])
  {
    GroupAt(d, 9, 61, 36, 24, 6);
    assert Digit(61) == '9' && Digit(36) == 'k' && Digit(24) == 'Y' && Digit(6) == 'G';
  }

  lemma Piece4(d: seq<byte>)
    requires |d| == 20 && d[12] == 0xCF && d[13] == 0x38 && d[14] == 0x59
    ensures Base64(d[12..]) == "zzhZ" + Base64(d[15..])
  {
    GroupAt(d, 12, 51, 51, 33, 25);
    assert Digit(51) == 'z' && Digit(51) == 'z' && Digit(33) == 'h' && Digit(25) == 'Z';
  }

  lemma Piece5(d: seq<byte>)
    requires |d| == 20 && d[15] == 0x45 && d[16] == 0xB2 && d[17] == 0xBE
    ensures Base64(d[15..]) == "RbK+" + Base64(d[18..])
  {
    GroupAt(d, 15, 17, 27, 10, 62);
    assert Digit(17) == 'R' && Digit(27) == 'b' && Digit(10) == 'K' && Digit(62) == '+';
  }

  lemma LastPiece(d: seq<byte>)
    requires |d| == 20 && d[18] == 0xC4 && d[19] == 0xEA
    ensures Base64(d[18..]) == "xOo="
  {
    TwoAt(d[18..], 49, 14, 40);
    assert Digit(49) == 'x' && Digit(14) == 'O' && Digit(40) == 'o';
  }

  lemma TwoAt(s: seq<byte>, d0: nat, d1: nat, d2: nat)
    requires |s| == 2 && d0 < 64 && d1 < 64 && d2 < 64
    requires Group(s[0], s[1], 0) == d0 * 0x40000 + d1 * 0x1000 + d2 * 64
    ensures Base64(s) == [Digit(d0), Digit(d1), Digit(d2)] + "="
  {
    var v := Group(s[0], s[1], 0);
    FourDigits(v);
    Sixties(v, d0, d1, d2, 0);
  }

  lemma SampleBytes(d: seq<byte>)
    requires d == [0xB3, 0x7A, 0x4F, 0x2C] + [0xC0, 0x62, 0x4F, 0x16] + [0x90, 0xF6, 0x46, 0x06]
                  + [0xCF, 0x38, 0x59, 0x45] + [0xB2, 0xBE, 0xC4, 0xEA]
    ensures |d| == 20 && d[0] == 0xB3 && d[1] == 0x7A && d[2] == 0x4F && d[3] == 0x2C && d[4] == 0xC0
    ensures d[5] == 0x62 && d[6] == 0x4F && d[7] == 0x16 && d[8] == 0x90 && d[9] == 0xF6
    ensures d[10] == 0x46 && d[11] == 0x06 && d[12] == 0xCF && d[13] == 0x38 && d[14] == 0x59
    ensures d[15] == 0x45 && d[16] == 0xB2 && d[17] == 0xBE && d[18] == 0xC4 && d[19] == 0xEA
  {
  }

  lemma SampleEncoded(d: seq<byte>)
    requires d == [0xB3, 0x7A, 0x4F, 0x2C] + [0xC0, 0x62, 0x4F, 0x16] + [0x90, 0xF6, 0x46, 0x06]
                  + [0xCF, 0x38, 0x59, 0x45] + [0xB2, 0xBE, 0xC4, 0xEA]
    ensures Base64(d) == "s3pPLMBiTxaQ9kYGzzhZRbK+xOo="
  {
    SampleBytes(d);
    LastPiece(d);
    Piece5(d);
    Piece4(d);
    Piece3(d);
    Piece2(d);
    Piece1(d);
    Piece0(d);
    assert d[0..] == d;
    SampleJoined();
  }

  lemma SampleJoined()
    ensures "s3pP" + ("LMBi" + ("TxaQ" + ("9kYG" + ("zzhZ" + ("RbK+" + "xOo=")))))
            == "s3pPLMBiTxaQ9kYGzzhZRbK+xOo="
  {
  }

  /** The sample key of section 1.3 of RFC 6455 gets the answer given there. */
  lemma SampleAnswer()
    ensures ServerAccept(Ascii("dGhlIHNhbXBsZSBub25jZQ==")) == "s3pPLMBiTxaQ9kYGzzhZRbK+xOo="
  {
    SampleDigest();
    SampleEncoded(Sha1(Salted(Ascii("dGhlIHNhbXBsZSBub25jZQ=="))));
  }

  // ---------------------------------------------------------------- base 64 (RFC 4648)

  /** The alphabet of section 4 of RFC 4648. */
  lemma AlphabetIs()
    ensures ALPHABET == "ABCDEFGHIJKLMNOPQRSTUVWXYZ" + "abcdefghijklmnopqrstuvwxyz" + "0123456789" + "+/"
  {
    assert Letters('A', 26) == "ABCDEFGHIJKLMNOPQRSTUVWXYZ" by {
      Capitals();
    }
    assert Letters('a', 26) == "abcdefghijklmnopqrstuvwxyz" by {
      SmallLetters();
    }
  }

  lemma Capitals()
    ensures Letters('A', 26) == "ABCDEFGHIJKLMNOPQRSTUVWXYZ"
  {
  }

  lemma SmallLetters()
    ensures Letters('a', 26) == "abcdefghijklmnopqrstuvwxyz"
  {
  }

  /** Test vectors of section 10 of RFC 4648: "f", "fo" and "foo". */
  lemma EncodedVectors()
    ensures Base64([0x66]) == "Zg==" && Base64([0x66, 0x6F]) == "Zm8=" && Base64([0x66, 0x6F, 0x6F]) == "Zm9v"
  {
    EncodedOne([0x66]);
    EncodedTwo([0x66, 0x6F]);
    EncodedThree([0x66, 0x6F, 0x6F]);
  }

  lemma EncodedOne(d: seq<byte>)
    requires |d| == 1 && d[0] == 0x66
    ensures Base64(d) == "Zg=="
  {
    OneAt(d, 25, 32);
    assert Digit(25) == 'Z' && Digit(32) == 'g';
  }

  lemma EncodedTwo(d: seq<byte>)
    requires |d| == 2 && d[0] == 0x66 && d[1] == 0x6F
    ensures Base64(d) == "Zm8="
  {
    TwoAt(d, 25, 38, 60);
    assert Digit(25) == 'Z' && Digit(38) == 'm' && Digit(60) == '8';
  }

  lemma EncodedThree(d: seq<byte>)
    requires |d| == 3 && d[0] == 0x66 && d[1] == 0x6F && d[2] == 0x6F
    ensures Base64(d) == "Zm9v"
  {
    GroupAt(d, 0, 25, 38, 61, 47);
    assert d[0..] == d && d[3..] == [];
    assert Digit(25) == 'Z' && Digit(38) == 'm' && Digit(61) == '9' && Digit(47) == 'v';
  }

  lemma OneAt(s: seq<byte>, d0: nat, d1: nat)
    requires |s| == 1 && d0 < 64 && d1 < 64 && Group(s[0], 0, 0) == d0 * 0x40000 + d1 * 0x1000
    ensures Base64(s) == [Digit(d0), Digit(d1)] + "=="
  {
    var v := Group(s[0], 0, 0);
    FourDigits(v);
    Sixties(v, d0, d1, 0, 0);
  }
}
