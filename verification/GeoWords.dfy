/** geoip.go be32, be64pair and geosets.go bytes16: big-endian bytes, their numbers and their
    hex, and why text order is numeric order. */
module GeoWords {
  import opened NetAddr
  import opened Text

  type Byte = n: nat | n < 256
  type Bytes = seq<Byte>

  /** The number a big-endian byte string spells. */
  function BeValue(b: Bytes): nat {
    if b == [] then 0 else BeValue(b[..|b| - 1]) * 256 + b[|b| - 1]
  }

  function Pow256(k: nat): (r: nat)
    ensures 1 <= r
  {
    if k == 0 then 1 else 256 * Pow256(k - 1)
  }

  lemma {:induction false} BeBound(b: Bytes)
    ensures BeValue(b) < Pow256(|b|)
  {
    if b != [] {
      BeBound(b[..|b| - 1]);
    }
  }

  lemma {:induction false} BeConcat(a: Bytes, b: Bytes)
    ensures BeValue(a + b) == BeValue(a) * Pow256(|b|) + BeValue(b)
    decreases |b|
  {
    if b == [] {
      assert a + b == a;
    } else {
      var k := |b| - 1;
      assert (a + b)[..|a + b| - 1] == a + b[..k];
      BeConcat(a, b[..k]);
      Shifted(BeValue(a), Pow256(k), BeValue(b[..k]), b[k]);
    }
  }

  lemma Shifted(x: nat, p: nat, y: nat, digit: nat)
    ensures (x * p + y) * 256 + digit == x * (256 * p) + (y * 256 + digit)
  {
  }

  lemma Pow256Values()
    ensures Pow256(4) == TWO32 && Pow256(8) == TWO64 && Pow256(16) == TWO128
  {
    assert Pow256(4) == TWO32;
    assert Pow256(8) == TWO64;
    assert Pow256(12) == TWO32 * TWO64;
    assert Pow256(16) == TWO128;
  }

  // be32
  function Be32(b: Bytes): (r: Word32)
    requires |b| == 4
    ensures r == BeValue(b)
  {
    assert b[..3][..2] == b[..2] && b[..2][..1] == b[..1] && b[..1][..0] == [];
    var b0: nat, b1: nat, b2: nat, b3: nat := b[0], b[1], b[2], b[3];
    assert BeValue(b[..1]) == b0;
    assert BeValue(b[..2]) == b0 * 256 + b1;
    assert BeValue(b[..3]) == b0 * 65536 + b1 * 256 + b2;
    b0 * 0x100_0000 + b1 * 0x1_0000 + b2 * 0x100 + b3
  }

  /** Both halves are built byte by byte; no shift ever loses a bit. */
  method Be64Pair(b: Bytes) returns (hi: Word64, lo: Word64)
    requires |b| == 16
    ensures hi == BeValue(b[..8]) && lo == BeValue(b[8..])
    ensures hi * TWO64 + lo == BeValue(b)
  {
    Pow256Values();
    var h: nat, l: nat := 0, 0;
    var i := 0;
    while i < 8
      invariant 0 <= i <= 8
      invariant h == BeValue(b[..i]) && l == BeValue(b[8..8 + i])
      invariant h < Pow256(i) && l < Pow256(i)
    {
      assert b[..i + 1][..i] == b[..i];
      assert b[8..8 + i + 1][..i] == b[8..8 + i];
      h := h * 256 + b[i];
      l := l * 256 + b[i + 8];
      i := i + 1;
    }
    assert b[8..16] == b[8..];
    assert b == b[..8] + b[8..];
    BeConcat(b[..8], b[8..]);
    hi, lo := h, l;
  }

  /** The k-byte big-endian spelling of a number. */
  function ToBytes(v: nat, k: nat): (b: Bytes)
    ensures |b| == k
    decreases v, k
  {
    if k == 0 then [] else ToBytes(v / 256, k - 1) + [v % 256]
  }

  lemma {:induction false} ToBytesValue(v: nat, k: nat)
    requires v < Pow256(k)
    ensures BeValue(ToBytes(v, k)) == v
  {
    if k > 0 {
      ToBytesValue(v / 256, k - 1);
      assert ToBytes(v, k)[..k - 1] == ToBytes(v / 256, k - 1);
    }
  }

  lemma {:induction false} ToBytesOfValue(b: Bytes)
    ensures ToBytes(BeValue(b), |b|) == b
  {
    if b != [] {
      ToBytesOfValue(b[..|b| - 1]);
      var v := BeValue(b[..|b| - 1]);
      assert (v * 256 + b[|b| - 1]) / 256 == v;
    }
  }

  /** bytes16 writes the low byte of each half last. */
  method Bytes16(hi: Word64, lo: Word64) returns (b: Bytes)
    ensures b == ToBytes(hi, 8) + ToBytes(lo, 8)
  {
    var a := new Byte[16](_ => 0);
    var h: nat, l: nat := hi, lo;
    var i := 0;
    while i < 8
      invariant 0 <= i <= 8
      invariant ToBytes(hi, 8) == ToBytes(h, 8 - i) + a[8 - i..8]
      invariant ToBytes(lo, 8) == ToBytes(l, 8 - i) + a[16 - i..16]
    {
      ghost var before := a[..];
      a[7 - i], a[15 - i] := h % 256, l % 256;
      assert a[7 - i..8] == [h % 256] + before[8 - i..8];
      assert a[15 - i..16] == [l % 256] + before[16 - i..16];
      assert ToBytes(h, 8 - i) == ToBytes(h / 256, 7 - i) + [h % 256];
      assert ToBytes(l, 8 - i) == ToBytes(l / 256, 7 - i) + [l % 256];
      h, l := h / 256, l / 256;
      i := i + 1;
    }
    b := a[..];
    assert b == a[0..8] + a[8..16];
  }

  /** be64pair and bytes16 undo each other, in both directions, and the bytes spell the 128-bit
      number whose halves these are. */
  lemma HalvesRoundTrip(hi: Word64, lo: Word64)
    ensures var b := ToBytes(hi, 8) + ToBytes(lo, 8);
            BeValue(b[..8]) == hi && BeValue(b[8..]) == lo && BeValue(b) == hi * TWO64 + lo
  {
    Pow256Values();
    ToBytesValue(hi, 8);
    ToBytesValue(lo, 8);
    var x, y := ToBytes(hi, 8), ToBytes(lo, 8);
    assert (x + y)[..8] == x && (x + y)[8..] == y;
    BeConcat(x, y);
  }

  lemma BytesRoundTrip(b: Bytes)
    requires |b| == 16
    ensures BeValue(b[..8]) < TWO64 && BeValue(b[8..]) < TWO64
    ensures ToBytes(BeValue(b[..8]), 8) + ToBytes(BeValue(b[8..]), 8) == b
  {
    Pow256Values();
    BeBound(b[..8]);
    BeBound(b[8..]);
    ToBytesOfValue(b[..8]);
    ToBytesOfValue(b[8..]);
    assert b == b[..8] + b[8..];
  }

  // ------------------------------------------------------------------- hex

  const DIGITS := "0123456789abcdef"

  function HexByte(n: Byte): string {
    [DIGITS[n / 16], DIGITS[n % 16]]
  }

  // hex.EncodeToString
  function EncodeHex(b: Bytes): (s: string)
    ensures |s| == 2 * |b|
  {
    if b == [] then "" else HexByte(b[0]) + EncodeHex(b[1..])
  }

  lemma DigitsAscend(i: nat, j: nat)
    requires i < 16 && j < 16
    ensures DIGITS[i] < DIGITS[j] <==> i < j
    ensures DIGITS[i] == DIGITS[j] <==> i == j
  {
    var rank := (k: int) requires 0 <= k < 16 => if k < 10 then 48 + k else 87 + k;
    assert forall k :: 0 <= k < 16 ==> DIGITS[k] as int == rank(k);
  }

  lemma DigitIs(d: nat)
    requires d < 16
    ensures DIGITS[d] as int == if d < 10 then 48 + d else 87 + d
  {
    DigitsAscend(d, d);
    assert d == 0 || d == 1 || d == 2 || d == 3 || d == 4 || d == 5 || d == 6 || d == 7 ||
           d == 8 || d == 9 || d == 10 || d == 11 || d == 12 || d == 13 || d == 14 || d == 15;
  }

  /** Each byte is two digits, the higher first, and the digits past nine are small letters. */
  lemma {:induction false} HexAt(b: Bytes, i: nat)
    requires i < |b|
    ensures EncodeHex(b)[2 * i] as int == b[i] / 16 + if b[i] / 16 < 10 then 48 else 87
    ensures EncodeHex(b)[2 * i + 1] as int == b[i] % 16 + if b[i] % 16 < 10 then 48 else 87
  {
    DigitIs(b[i] / 16);
    DigitIs(b[i] % 16);
    var s, t := EncodeHex(b), EncodeHex(b[1..]);
    HexHead(b);
    if i == 0 {
      assert s[0] == HexByte(b[0])[0] && s[1] == HexByte(b[0])[1];
    } else {
      HexAt(b[1..], i - 1);
      assert s[2 * i] == t[2 * (i - 1)] && s[2 * i + 1] == t[2 * (i - 1) + 1];
    }
  }

  /** Lexicographic order of equal-length byte strings is the order of their numbers. */
  lemma {:induction false} ByteOrder(a: Bytes, b: Bytes)
    requires |a| == |b|
    ensures BeValue(a) == BeValue(b) <==> a == b
    ensures a != [] && a[0] < b[0] ==> BeValue(a) < BeValue(b)
    ensures a != [] && a[0] == b[0] ==> (BeValue(a) < BeValue(b) <==> BeValue(a[1..]) < BeValue(b[1..]))
  {
    ToBytesOfValue(a);
    ToBytesOfValue(b);
    if a != [] {
      HeadTail(a);
      HeadTail(b);
      BeBound(a[1..]);
      BeBound(b[1..]);
      MulStep(a[0], b[0], Pow256(|a| - 1));
    }
  }

  lemma HeadTail(a: Bytes)
    requires a != []
    ensures BeValue(a) == a[0] * Pow256(|a| - 1) + BeValue(a[1..])
  {
    var head, tail := a[..1], a[1..];
    assert head + tail == a;
    OneByte(head);
    BeConcat(head, tail);
  }

  lemma OneByte(b: Bytes)
    requires |b| == 1
    ensures BeValue(b) == b[0]
  {
    assert BeValue(b[..0]) == 0;
  }

  lemma HexHead(a: Bytes)
    requires a != []
    ensures EncodeHex(a) == HexByte(a[0]) + EncodeHex(a[1..])
  {
  }

  /** Fixed-width lowercase hex compares as text exactly as the numbers compare. */
  lemma {:induction false} HexOrder(a: Bytes, b: Bytes)
    requires |a| == |b|
    ensures LexLess(EncodeHex(a), EncodeHex(b)) <==> BeValue(a) < BeValue(b)
  {
    if a != [] {
      HexOrder(a[1..], b[1..]);
      HexHead(a);
      HexHead(b);
      HexByteOrder(a[0], b[0], EncodeHex(a[1..]), EncodeHex(b[1..]));
      ByteOrder(a, b);
      ByteOrder(b, a);
    }
  }

  lemma {:induction false} HexInjective(a: Bytes, b: Bytes)
    requires |a| == |b|
    ensures EncodeHex(a) == EncodeHex(b) <==> a == b
  {
    if a != [] {
      HexInjective(a[1..], b[1..]);
      HexByteOrder(a[0], b[0], "", "");
      assert EncodeHex(a)[..2] == HexByte(a[0]) && EncodeHex(a)[2..] == EncodeHex(a[1..]);
      assert EncodeHex(b)[..2] == HexByte(b[0]) && EncodeHex(b)[2..] == EncodeHex(b[1..]);
      assert a == [a[0]] + a[1..] && b == [b[0]] + b[1..];
    }
  }

  lemma HexByteOrder(m: Byte, n: Byte, x: string, y: string)
    ensures HexByte(m) == HexByte(n) <==> m == n
    ensures LexLess(HexByte(m) + x, HexByte(n) + y) <==> m < n || (m == n && LexLess(x, y))
  {
    DigitsAscend(m / 16, n / 16);
    DigitsAscend(m % 16, n % 16);
    var a, b := HexByte(m) + x, HexByte(n) + y;
    assert a[1..] == [DIGITS[m % 16]] + x && b[1..] == [DIGITS[n % 16]] + y;
    assert a[1..][1..] == x && b[1..][1..] == y;
  }

  /** The published spelling of a 128-bit bound. */
  function Hex128(v: nat): string {
    EncodeHex(ToBytes(v, 16))
  }

  lemma Hex128Order(v: Word128, w: Word128)
    ensures LexLess(Hex128(v), Hex128(w)) <==> v < w
    ensures LexLe(Hex128(v), Hex128(w)) <==> v <= w
    ensures Hex128(v) == Hex128(w) <==> v == w
  {
    Pow256Values();
    ToBytesValue(v, 16);
    ToBytesValue(w, 16);
    HexOrder(ToBytes(v, 16), ToBytes(w, 16));
    HexOrder(ToBytes(w, 16), ToBytes(v, 16));
    HexInjective(ToBytes(v, 16), ToBytes(w, 16));
  }
}
