/** What a packed glyph is, bit by bit: where the bits of the font lie, which dots a group stands
    for, and how its fields are packed (rp/src/u8g2/u8g2_font.c). */
module GlyphLaws {
  import opened Arithmetic
  import opened Bytes
  import opened Glyph

  lemma {:induction false} ToBitsAt(n: nat, k: nat, i: nat)
    requires i < k
    ensures ToBits(n, k)[i] <==> n / Pow2(i) % 2 == 1
    decreases i
  {
    if i > 0 {
      ToBitsAt(n / 2, k - 1, i - 1);
      HalfFirst(n, Pow2(i - 1));
    }
  }

  lemma HalfFirst(n: nat, p: nat)
    requires p > 0
    ensures n / 2 / p == n / (2 * p)
  {
    var q, r := n / 2 / p, n / 2 % p;
    assert n / 2 == p * q + r && n == 2 * (n / 2) + n % 2;
    Doubled(p, q);
    Quotient(n, 2 * p, q, 2 * r + n % 2);
  }

  lemma Doubled(p: nat, q: nat)
    ensures 2 * (p * q) == q * (2 * p)
  {
  }

  /** Bit i of a font is bit i mod 8 of byte i / 8, the least significant first. */
  lemma BitAt(data: seq<byte>, i: nat)
    requires i < 8 * |data|
    ensures Bits(data)[i] <==> data[i / 8] / Pow2(i % 8) % 2 == 1
  {
    var j := i / 8;
    ByteOfBits(data, j);
    assert Bits(data)[8 * j..8 * j + 8][i % 8] == Bits(data)[i];
    ToBitsAt(data[j], 8, i % 8);
  }

  lemma {:induction false} TimesAt(s: seq<bool>, n: nat, q: nat, r: nat, i: nat)
    requires r < |s| && q < n && i == q * |s| + r
    ensures i < |Times(s, n)| && Times(s, n)[i] == s[r]
    decreases q
  {
    var rest := Times(s, n - 1);
    assert Times(s, n) == s + rest;
    if q > 0 {
      OneLess(q, |s|);
      TimesAt(s, n - 1, q - 1, r, i - |s|);
    }
  }

  lemma OneLess(q: nat, len: nat)
    requires q > 0
    ensures q * len == len + (q - 1) * len
  {
  }

  lemma Within(n: nat, len: nat, i: nat)
    requires i < n * len
    ensures len > 0 && i / len < n && i == i / len * len + i % len
  {
    assert i / len * len <= i;
    if i / len >= n {
      MulGap(n, i / len, len);
    }
  }

  /** Within a group the dots go round: first the clear ones of a pair, then its ink. */
  lemma GroupDots(g: Group, i: nat)
    requires i < |Expanded(g)|
    ensures |Expanded(g)| == (g.more + 1) * (g.zeros + g.ones) && g.zeros + g.ones > 0
    ensures Expanded(g)[i] <==> i % (g.zeros + g.ones) >= g.zeros
  {
    var len := g.zeros + g.ones;
    Within(g.more + 1, len, i);
    TimesAt(Pair(g), g.more + 1, i / len, i % len, i);
  }

  /** A packed group reads back: the run of clear dots, the run of ink, then one set bit for
      every further repetition and a clear bit. */
  lemma PackedFields(w: Widths, g: Group)
    requires Glyph.Fits(w, g)
    ensures var p, n := Packed(w, g), w.zeros + w.ones;
            && |p| == n + g.more + 1
            && FromBits(p[..w.zeros]) == g.zeros && FromBits(p[w.zeros..n]) == g.ones
            && (forall i :: n <= i < n + g.more ==> p[i]) && !p[n + g.more]
  {
    FromToBits(g.zeros, w.zeros);
    FromToBits(g.ones, w.ones);
    var p := Packed(w, g);
    assert p[..w.zeros] == ToBits(g.zeros, w.zeros) && p[w.zeros..w.zeros + w.ones] == ToBits(g.ones, w.ones);
  }
}
