/** The QRIS checksum: CRC-16/CCITT-FALSE (polynomial 0x1021, initial register 0xFFFF, no
    reflection, no final XOR), written as four upper-case hexadecimal digits.

    A register is a sequence of bits, the most significant first, so that `x << 1` within a
    fixed width drops the first bit and appends a zero, and the low `k` bits are the last `k`. */
module Crc16 {
  import opened Strings
  import opened Numerals

  /** The `w` low bits of `n`, most significant first. */
  function BitsOf(n: nat, w: nat): (b: seq<bool>)
    ensures |b| == w
  {
    if w == 0 then [] else BitsOf(n / 2, w - 1) + [n % 2 == 1]
  }

  /** The number a sequence of bits denotes. */
  function ValueOf(b: seq<bool>): nat
  {
    if b == [] then 0 else 2 * ValueOf(b[..|b| - 1]) + (if b[|b| - 1] then 1 else 0)
  }

  function Xor(a: seq<bool>, b: seq<bool>): (r: seq<bool>)
    requires |a| == |b|
    ensures |r| == |a|
  {
    seq(|a|, i requires 0 <= i < |a| => a[i] != b[i])
  }

  /** `x << 1` within the width of `x`. */
  function ShiftLeft(x: seq<bool>): (r: seq<bool>)
    requires |x| >= 1
    ensures |r| == |x|
  {
    x[1..] + [false]
  }

  /** `str.charCodeAt(i)` for character `c`. */
  function CharCode(c: char): nat
  {
    c as int
  }

  // ---- The register as the JavaScript code keeps it: a 32-bit integer, masked only at the end.

  const RawPolynomial := BitsOf(0x1021, 32)
  const RawInitial := BitsOf(0xFFFF, 32)

  /** One pass of the inner loop: shift left, and add the polynomial when bit 15 was set. */
  function RawShift(crc: seq<bool>): (r: seq<bool>)
    requires |crc| == 32
    ensures |r| == 32
  {
    if crc[16] then Xor(ShiftLeft(crc), RawPolynomial) else ShiftLeft(crc)
  }

  function RawShifts(crc: seq<bool>, n: nat): (r: seq<bool>)
    requires |crc| == 32
    ensures |r| == 32
  {
    if n == 0 then crc else RawShift(RawShifts(crc, n - 1))
  }

  /** `crc ^= str.charCodeAt(i) << 8` */
  function RawMix(crc: seq<bool>, c: char): (r: seq<bool>)
    requires |crc| == 32
    ensures |r| == 32
  {
    Xor(crc, BitsOf(CharCode(c) * 256, 32))
  }

  /** One pass of the outer loop. */
  function RawFeed(crc: seq<bool>, c: char): (r: seq<bool>)
    requires |crc| == 32
    ensures |r| == 32
  {
    RawShifts(RawMix(crc, c), 8)
  }

  /** The 32-bit register after the characters of `s`. */
  function RawRegister(s: string): (r: seq<bool>)
    ensures |r| == 32
  {
    if s == [] then RawInitial else RawFeed(RawRegister(s[..|s| - 1]), s[|s| - 1])
  }

  // ---- The textbook definition: a 16-bit register fed with bytes.

  const Polynomial := BitsOf(0x1021, 16)
  const Initial := BitsOf(0xFFFF, 16)

  /** The byte of a character code that can reach the low 16 bits of the register. */
  function LowByte(c: char): nat
  {
    CharCode(c) % 256
  }

  function Shift(r: seq<bool>): (r': seq<bool>)
    requires |r| == 16
    ensures |r'| == 16
  {
    if r[0] then Xor(ShiftLeft(r), Polynomial) else ShiftLeft(r)
  }

  function Shifts(r: seq<bool>, n: nat): (r': seq<bool>)
    requires |r| == 16
    ensures |r'| == 16
  {
    if n == 0 then r else Shift(Shifts(r, n - 1))
  }

  /** XOR the byte into the high half of the register, then eight shifts. */
  function Feed(r: seq<bool>, b: nat): (r': seq<bool>)
    requires |r| == 16
    ensures |r'| == 16
  {
    Shifts(Xor(r, BitsOf(b, 8) + BitsOf(0, 8)), 8)
  }

  /** CRC-16/CCITT-FALSE of the low bytes of the character codes of `s`. */
  function Register(s: string): (r: seq<bool>)
    ensures |r| == 16
  {
    if s == [] then Initial else Feed(Register(s[..|s| - 1]), LowByte(s[|s| - 1]))
  }

  // ---- The two agree on the low 16 bits.

  /** The low `m` bits of `BitsOf(n, w)` are `BitsOf(n, m)`. */
  lemma {:induction false} LowBitsOf(n: nat, w: nat, m: nat)
    requires m <= w
    ensures BitsOf(n, w)[w - m..] == BitsOf(n, m)
    decreases w
  {
    if m < w {
      LowBitsOf(n / 2, w - 1, if m == 0 then 0 else m - 1);
      if m > 0 {
        assert BitsOf(n, w)[w - m..] == BitsOf(n / 2, w - 1)[w - m..] + [n % 2 == 1];
      }
    }
  }

  /** Doubling appends a zero bit. */
  lemma DoubleBits(n: nat, w: nat)
    requires w >= 1
    ensures BitsOf(2 * n, w) == BitsOf(n, w - 1) + [false]
  {
    assert (2 * n) / 2 == n && (2 * n) % 2 == 0;
  }

  /** Multiplying by `2^k` appends `k` zero bits. */
  lemma {:induction false} ScaledBits(n: nat, w: nat, k: nat)
    ensures BitsOf(n * Pow(2, k), w + k) == BitsOf(n, w) + BitsOf(0, k)
  {
    if k > 0 {
      var m := n * Pow(2, k - 1);
      assert n * Pow(2, k) == 2 * m;
      ScaledBits(n, w, k - 1);
      DoubleBits(m, w + k);
    }
  }

  /** Adding a multiple of `2^w` leaves the low `w` bits alone. */
  lemma {:induction false} PeriodicBits(n: nat, t: nat, w: nat)
    ensures BitsOf(n + t * Pow(2, w), w) == BitsOf(n, w)
  {
    if w > 0 {
      var u := t * Pow(2, w - 1);
      assert t * Pow(2, w) == 2 * u;
      assert (n + 2 * u) / 2 == n / 2 + u && (n + 2 * u) % 2 == n % 2;
      PeriodicBits(n / 2, t, w - 1);
    }
  }

  /** `(code << 8)` seen in 16 bits: the low byte of the code, then eight zero bits. */
  lemma ShiftedByteBits(code: nat)
    ensures BitsOf(code * 256, 32)[16..] == BitsOf(code % 256, 8) + BitsOf(0, 8)
  {
    LowBitsOf(code * 256, 32, 16);
    PowFacts();
    ScaledBits(code, 8, 8);
    PeriodicBits(code % 256, code / 256, 8);
  }

  lemma ShiftAgrees(x: seq<bool>)
    requires |x| == 32
    ensures RawShift(x)[16..] == Shift(x[16..])
  {
    LowBitsOf(0x1021, 32, 16);
    assert ShiftLeft(x)[16..] == ShiftLeft(x[16..]);
  }

  lemma {:induction false} ShiftsAgree(x: seq<bool>, n: nat)
    requires |x| == 32
    ensures RawShifts(x, n)[16..] == Shifts(x[16..], n)
  {
    if n > 0 {
      ShiftsAgree(x, n - 1);
      ShiftAgrees(RawShifts(x, n - 1));
    }
  }

  /** The register the JavaScript code keeps, masked to 16 bits, is the textbook CRC register fed
      with the low byte of each character code. */
  lemma {:induction false} RegistersAgree(s: string)
    ensures RawRegister(s)[16..] == Register(s)
  {
    if s == [] {
      LowBitsOf(0xFFFF, 32, 16);
    } else {
      var p, c := s[..|s| - 1], s[|s| - 1];
      RegistersAgree(p);
      var mixed := RawMix(RawRegister(p), c);
      ShiftedByteBits(CharCode(c));
      assert mixed[16..] == Xor(Register(p), BitsOf(LowByte(c), 8) + BitsOf(0, 8));
      ShiftsAgree(mixed, 8);
    }
  }

  // ---- Reading a register as a number.

  lemma PowFacts()
    ensures Pow(2, 8) == 256 && Pow(2, 16) == 65536 && Pow(16, 4) == 65536
  {
    assert Pow(2, 1) == 2;
    assert Pow(2, 2) == 4;
    assert Pow(2, 3) == 8;
    assert Pow(2, 4) == 16;
    assert Pow(2, 5) == 32;
    assert Pow(2, 6) == 64;
    assert Pow(2, 7) == 128;
    assert Pow(2, 8) == 256;
    assert Pow(2, 9) == 512;
    assert Pow(2, 10) == 1024;
    assert Pow(2, 11) == 2048;
    assert Pow(2, 12) == 4096;
    assert Pow(2, 13) == 8192;
    assert Pow(2, 14) == 16384;
    assert Pow(2, 15) == 32768;
    assert Pow(2, 16) == 65536;
    assert Pow(16, 1) == 16;
    assert Pow(16, 2) == 256;
    assert Pow(16, 3) == 4096;
    assert Pow(16, 4) == 65536;
  }

  lemma {:induction false} ValueOfBits(n: nat, w: nat)
    requires n < Pow(2, w)
    ensures ValueOf(BitsOf(n, w)) == n
  {
    if w > 0 {
      var b := BitsOf(n, w);
      assert b[..|b| - 1] == BitsOf(n / 2, w - 1);
      ValueOfBits(n / 2, w - 1);
    }
  }

  lemma {:induction false} BitsOfValue(b: seq<bool>)
    ensures ValueOf(b) < Pow(2, |b|)
    ensures BitsOf(ValueOf(b), |b|) == b
  {
    if b != [] {
      var p := b[..|b| - 1];
      BitsOfValue(p);
      var v := ValueOf(b);
      assert v == 2 * ValueOf(p) + (if b[|b| - 1] then 1 else 0);
      assert v / 2 == ValueOf(p) && (v % 2 == 1) == b[|b| - 1];
      assert b == p + [b[|b| - 1]];
    }
  }

  /** Two registers of the same width with the same value are the same register. */
  lemma ValueInjective(a: seq<bool>, b: seq<bool>)
    requires |a| == |b|
    ensures ValueOf(a) == ValueOf(b) ==> a == b
  {
    BitsOfValue(a);
    BitsOfValue(b);
  }

  // ---- `(crc & 0xFFFF).toString(16).toUpperCase().padStart(4, '0')`

  /** `toUpperCase` on ASCII letters. */
  function AsciiUpper(s: string): (r: string)
    ensures |r| == |s|
  {
    seq(|s|, i requires 0 <= i < |s| => if 'a' <= s[i] <= 'z' then (s[i] as int - 32) as char else s[i])
  }

  /** Upper-casing a lower-case hexadecimal digit gives the upper-case digit of the same value. */
  lemma UpperHexDigit(d: nat)
    requires d < 16
    ensures AsciiUpper([LowerHexDigits[d]]) == [UpperHexDigits[d]]
  {
    if d < 10 {
      assert LowerHexDigits[d] == UpperHexDigits[d] && LowerHexDigits[d] < 'a';
    } else {
      assert LowerHexDigits[d] as int - 32 == UpperHexDigits[d] as int;
    }
  }

  /** `n.toString(16).toUpperCase()` is `n` written with upper-case hexadecimal digits. */
  lemma {:induction false} UpperHexText(n: nat)
    ensures AsciiUpper(NumeralText(n, LowerHexDigits)) == NumeralText(n, UpperHexDigits)
  {
    UpperHexDigit(n % 16);
    if n >= 16 {
      UpperHexText(n / 16);
      var t := NumeralText(n / 16, LowerHexDigits);
      assert AsciiUpper(t + [LowerHexDigits[n % 16]]) == AsciiUpper(t) + AsciiUpper([LowerHexDigits[n % 16]]);
    }
  }

  /** The four-digit text of a 16-bit register. */
  function HexText(r: seq<bool>): string
  {
    PadStart(AsciiUpper(NumeralText(ValueOf(r), LowerHexDigits)), 4, '0')
  }

  /** What `crc16(str)` returns. */
  function Checksum(s: string): (r: string)
    ensures |r| == 4 && AllIn(r, UpperHexDigits)
    ensures NumeralValue(r, UpperHexDigits) == ValueOf(Register(s))
  {
    HexTextFormat(Register(s));
    HexText(Register(s))
  }

  /** The text of a 16-bit register is four upper-case hexadecimal digits whose value is the
      register's. */
  lemma HexTextFormat(r: seq<bool>)
    requires |r| == 16
    ensures |HexText(r)| == 4 && AllIn(HexText(r), UpperHexDigits)
    ensures NumeralValue(HexText(r), UpperHexDigits) == ValueOf(r)
  {
    var v := ValueOf(r);
    BitsOfValue(r);
    PowFacts();
    assert IsAlphabet(UpperHexDigits);
    UpperHexText(v);
    var u := NumeralText(v, UpperHexDigits);
    TextLength(v, UpperHexDigits, 4);
    TextInAlphabet(v, UpperHexDigits);
    ValueOfText(v, UpperHexDigits);
    var h := HexText(r);
    var z := h[..4 - |u|];
    assert h == z + u;
    LeadingZeros(z, u, UpperHexDigits);
  }

  /** The JavaScript loop, over a 32-bit register. */
  method Crc16(s: string) returns (checksum: string)
    ensures checksum == Checksum(s)
    ensures |checksum| == 4 && AllIn(checksum, UpperHexDigits)
    ensures NumeralValue(checksum, UpperHexDigits) == ValueOf(Register(s))
  {
    var crc := RawInitial;
    for i := 0 to |s|
      invariant crc == RawRegister(s[..i])
    {
      assert s[..i + 1][..i] == s[..i];
      crc := RawMix(crc, s[i]);
      ghost var mixed := crc;
      for j := 0 to 8
        invariant |crc| == 32 && crc == RawShifts(mixed, j)
      {
        if crc[16] {
          crc := Xor(ShiftLeft(crc), RawPolynomial);
        } else {
          crc := ShiftLeft(crc);
        }
      }
    }
    assert s[..|s|] == s;
    RegistersAgree(s);
    checksum := HexText(crc[16..]);
    HexTextFormat(Register(s));
  }

  /** The checksum of the empty payload is the initial register. */
  lemma EmptyChecksum()
    ensures Checksum("") == "FFFF"
  {
    assert Register("") == Initial;
    InitialText();
  }

  lemma InitialText()
    ensures HexText(Initial) == "FFFF"
  {
    PowFacts();
    ValueOfBits(0xFFFF, 16);
    UpperHexText(0xFFFF);
    AllOnesText();
  }

  lemma AllOnesText()
    ensures NumeralText(0xFFFF, UpperHexDigits) == "FFFF"
  {
    assert NumeralText(15, UpperHexDigits) == "F";
    HexShift(15, 15);
    HexShift(255, 15);
    HexShift(4095, 15);
  }

  /** Appending a hexadecimal digit to a number appends it to the number's text. */
  lemma HexShift(n: nat, d: nat)
    requires 1 <= n && d < 16
    ensures NumeralText(16 * n + d, UpperHexDigits) == NumeralText(n, UpperHexDigits) + [UpperHexDigits[d]]
  {
    assert (16 * n + d) / 16 == n && (16 * n + d) % 16 == d;
  }

  /** Only the low byte of each character code reaches the checksum. */
  lemma {:induction false} LowBytesOnly(s: string, t: string)
    requires |s| == |t| && forall k :: 0 <= k < |s| ==> LowByte(s[k]) == LowByte(t[k])
    ensures Checksum(s) == Checksum(t)
    ensures Register(s) == Register(t)
  {
    if s != [] {
      LowBytesOnly(s[..|s| - 1], t[..|t| - 1]);
    }
  }

  // ---- A single changed byte always changes the checksum.

  lemma ShiftInjective(a: seq<bool>, b: seq<bool>)
    requires |a| == 16 && |b| == 16
    ensures Shift(a) == Shift(b) ==> a == b
  {
    PolynomialLowBit();
    ShiftByInjective(a, b, Polynomial);
  }

  lemma PolynomialLowBit()
    ensures Polynomial[15]
  {
    LastBit(0x1021, 16);
  }

  /** The last bit is the parity. */
  lemma LastBit(n: nat, w: nat)
    requires w >= 1
    ensures BitsOf(n, w)[w - 1] == (n % 2 == 1)
  {
  }

  /** A shift that adds a polynomial with its lowest bit set can be undone: the lowest bit of the
      result tells whether the polynomial was added. */
  lemma ShiftByInjective(a: seq<bool>, b: seq<bool>, poly: seq<bool>)
    requires |a| == 16 && |b| == 16 && |poly| == 16 && poly[15]
    ensures ((if a[0] then Xor(ShiftLeft(a), poly) else ShiftLeft(a))
             == (if b[0] then Xor(ShiftLeft(b), poly) else ShiftLeft(b))) ==> a == b
  {
    var sa := if a[0] then Xor(ShiftLeft(a), poly) else ShiftLeft(a);
    var sb := if b[0] then Xor(ShiftLeft(b), poly) else ShiftLeft(b);
    if sa == sb {
      assert sa[15] == a[0] && sb[15] == b[0];
      forall k | 1 <= k < 16 ensures a[k] == b[k] {
        assert sa[k - 1] == (a[k] != (a[0] && poly[k - 1]));
        assert sb[k - 1] == (b[k] != (b[0] && poly[k - 1]));
      }
    }
  }

  lemma {:induction false} ShiftsInjective(a: seq<bool>, b: seq<bool>, n: nat)
    requires |a| == 16 && |b| == 16
    ensures Shifts(a, n) == Shifts(b, n) ==> a == b
  {
    if n > 0 {
      ShiftInjective(Shifts(a, n - 1), Shifts(b, n - 1));
      ShiftsInjective(a, b, n - 1);
    }
  }

  /** Feeding the same byte into different registers gives different registers. */
  lemma FeedInjective(a: seq<bool>, b: seq<bool>, x: nat)
    requires |a| == 16 && |b| == 16
    ensures Feed(a, x) == Feed(b, x) ==> a == b
  {
    var m := BitsOf(x, 8) + BitsOf(0, 8);
    ShiftsInjective(Xor(a, m), Xor(b, m), 8);
    forall k | 0 <= k < 16 ensures Xor(a, m)[k] == (a[k] != m[k]) && Xor(b, m)[k] == (b[k] != m[k]) {
    }
  }

  /** Feeding different bytes into the same register gives different registers. */
  lemma FeedSeparates(r: seq<bool>, x: nat, y: nat)
    requires |r| == 16 && x < 256 && y < 256
    ensures Feed(r, x) == Feed(r, y) ==> x == y
  {
    var mx := BitsOf(x, 8) + BitsOf(0, 8);
    var my := BitsOf(y, 8) + BitsOf(0, 8);
    ShiftsInjective(Xor(r, mx), Xor(r, my), 8);
    assert mx[..8] == BitsOf(x, 8) && my[..8] == BitsOf(y, 8);
    if Feed(r, x) == Feed(r, y) {
      forall k | 0 <= k < 8 ensures mx[k] == my[k] {
        assert Xor(r, mx)[k] == Xor(r, my)[k];
      }
      assert BitsOf(x, 8) == BitsOf(y, 8);
    }
    PowFacts();
    ValueOfBits(x, 8);
    ValueOfBits(y, 8);
  }

  /** The same characters appended to different registers keep them different. */
  lemma {:induction false} SuffixKeepsApart(p: string, q: string, u: string)
    ensures Register(p + u) == Register(q + u) ==> Register(p) == Register(q)
    decreases |u|
  {
    if u == [] {
      assert p + u == p && q + u == q;
    } else {
      var u', c := u[..|u| - 1], u[|u| - 1];
      SuffixKeepsApart(p, q, u');
      assert (p + u)[..|p + u| - 1] == p + u' && (p + u)[|p + u| - 1] == c;
      assert (q + u)[..|q + u| - 1] == q + u' && (q + u)[|q + u| - 1] == c;
      FeedInjective(Register(p + u'), Register(q + u'), LowByte(c));
    }
  }

  /** Changing the low byte of one character of the payload always changes the checksum. */
  lemma SingleChangeDetected(p: string, c: char, d: char, u: string)
    requires LowByte(c) != LowByte(d)
    ensures Checksum(p + [c] + u) != Checksum(p + [d] + u)
  {
    var pc, pd := p + [c], p + [d];
    assert pc[..|pc| - 1] == p && pd[..|pd| - 1] == p;
    FeedSeparates(Register(p), LowByte(c), LowByte(d));
    SuffixKeepsApart(pc, pd, u);
    HexTextFormat(Register(pc + u));
    HexTextFormat(Register(pd + u));
    ValueInjective(Register(pc + u), Register(pd + u));
  }
}
