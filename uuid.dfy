/** Optional values, for what Python reports as `None`. */
module Wrappers {
  datatype Option<+T> = None | Some(value: T)
}

/** The part of Python's `uuid.UUID` that the client-ID check uses: turning a
    hexadecimal string into the 128-bit integer `UUID.int`, and the `variant`
    and `version` properties computed from that integer's bits. */
module Uuid {
  import opened Text
  import opened Wrappers
  import opened Patterns

  /** The `variant` of a UUID (section 4.1.1 of RFC 4122). */
  datatype Variant = ReservedNcs | Rfc4122 | ReservedMicrosoft | ReservedFuture

  function Pow2(k: nat): (p: nat)
    ensures p >= 1
  {
    if k == 0 then 1 else 2 * Pow2(k - 1)
  }

  function Pow16(k: nat): (p: nat)
    ensures p >= 1
  {
    if k == 0 then 1 else 16 * Pow16(k - 1)
  }

  /** Whether `u & 2**k` is non-zero. */
  predicate Bit(u: nat, k: nat) {
    (u / Pow2(k)) % 2 == 1
  }

  /** `UUID.variant`: tests `0x8000 << 48`, `0x4000 << 48` and `0x2000 << 48`,
      that is bits 63, 62 and 61, in that order. */
  function VariantOf(u: nat): Variant {
    if !Bit(u, 63) then ReservedNcs
    else if !Bit(u, 62) then Rfc4122
    else if !Bit(u, 61) then ReservedMicrosoft
    else ReservedFuture
  }

  /** `UUID.version`: `(int >> 76) & 0xf` for an RFC 4122 UUID, else `None`. */
  function VersionOf(u: nat): Option<nat> {
    if VariantOf(u) == Rfc4122 then Some((u / Pow2(76)) % 16) else None
  }

  /** The string with every `-` removed: `hex.replace('-', '')`. */
  function Hyphenless(s: string): (h: string)
    ensures |h| <= |s|
  {
    if s == [] then []
    else if s[0] == '-' then Hyphenless(s[1..])
    else [s[0]] + Hyphenless(s[1..])
  }

  /** `uuid.UUID(s).int` for a string of hexadecimal digits and dashes: the
      dashes are dropped, exactly 32 hexadecimal digits must remain, and
      they are read as one base-16 number. `None` stands for the
      `ValueError` raised otherwise. */
  function ParseUuid(s: string): (r: Option<nat>)
    ensures r.Some? ==> r.value < Pow16(32)
  {
    var h := Hyphenless(s);
    if |h| == 32 && AllHexDigits(h) then
      HexValueBound(h);
      Some(HexValue(h))
    else None
  }

  // ---------------------------------------------------------------------
  // Arithmetic on positional numbers

  lemma MulSign(p: int, t: int)
    requires p > 0
    ensures t >= 1 ==> p * t >= p
    ensures t <= -1 ==> p * t <= -p
  {
  }

  lemma DivModUnique(x: int, p: int, q: int, r: int)
    requires p > 0 && 0 <= r < p && x == q * p + r
    ensures x / p == q && x % p == r
  {
    var q', r' := x / p, x % p;
    MulSign(p, q - q');
    assert p * (q - q') == r' - r;
  }

  lemma DivDiv(x: nat, a: nat, b: nat)
    requires a > 0 && b > 0
    ensures x / (a * b) == (x / a) / b
  {
    var q, r := x / a, x % a;
    var q2, r2 := q / b, q % b;
    Regroup(a, b, q2, r2, r);
    RemainderBound(a, b, r2, r);
    DivModUnique(x, a * b, q2, a * r2 + r);
  }

  lemma Regroup(a: int, b: int, q2: int, r2: int, r: int)
    ensures a * (b * q2 + r2) + r == (a * b) * q2 + (a * r2 + r)
  {
  }

  lemma RemainderBound(a: int, b: int, r2: int, r: int)
    requires 0 <= r < a && 0 <= r2 < b
    ensures 0 <= a * r2 + r < a * b
  {
    MulSign(a, b - r2);
    assert a * (b - r2) == a * b - a * r2;
  }

  lemma Pow2Add(m: nat, n: nat)
    ensures Pow2(m + n) == Pow2(m) * Pow2(n)
  {
    if n > 0 {
      Pow2Add(m, n - 1);
    }
  }

  lemma {:induction false} Pow2Pow16(k: nat)
    ensures Pow2(4 * k) == Pow16(k)
  {
    if k > 0 {
      Pow2Pow16(k - 1);
      Pow2Add(4 * (k - 1), 4);
      assert Pow2(4) == 16;
    }
  }

  lemma {:induction false} HexValueBound(s: string)
    requires AllHexDigits(s)
    ensures HexValue(s) < Pow16(|s|)
  {
    if s != [] {
      HexValueBound(s[..|s| - 1]);
    }
  }

  lemma AllHexDigitsAppend(a: string, b: string)
    requires AllHexDigits(a) && AllHexDigits(b)
    ensures AllHexDigits(a + b)
  {
    var ab := a + b;
    forall i | 0 <= i < |ab|
      ensures IsHexDigit(ab[i])
    {
      if i >= |a| {
        assert ab[i] == b[i - |a|];
      }
    }
  }

  lemma ShiftOneDigit(x: int, p: int, y: int, d: int)
    ensures (x * p + y) * 16 + d == x * (p * 16) + (y * 16 + d)
  {
  }

  /** Reading `a + b` in base 16 shifts `a` left by the digits of `b`. */
  lemma {:induction false} HexValueAppend(a: string, b: string)
    requires AllHexDigits(a) && AllHexDigits(b)
    ensures AllHexDigits(a + b)
    ensures HexValue(a + b) == HexValue(a) * Pow16(|b|) + HexValue(b)
    decreases |b|
  {
    AllHexDigitsAppend(a, b);
    if b != [] {
      var ab := a + b;
      var b' := b[..|b| - 1];
      assert ab[..|ab| - 1] == a + b';
      HexValueAppend(a, b');
      ShiftOneDigit(HexValue(a), Pow16(|b'|), HexValue(b'), HexDigitValue(b[|b| - 1]));
    } else {
      assert a + b == a;
    }
  }

  /** Digit `k` of a base-16 numeral, counted from the left, is the value's
      base-16 digit at place `|h| - 1 - k`. */
  lemma DigitAtPlace(u: int, x: int, p: int, y: int, high: int, d: int)
    requires p > 0 && 0 <= y < p && u == x * p + y
    requires 0 <= d < 16 && x == high * 16 + d
    ensures (u / p) % 16 == d
  {
    DivModUnique(u, p, x, y);
    DivModUnique(x, 16, high, d);
  }

  lemma Nibble(h: string, k: nat)
    requires AllHexDigits(h) && k < |h|
    ensures (HexValue(h) / Pow16(|h| - 1 - k)) % 16 == HexDigitValue(h[k])
  {
    var high, low := h[..k + 1], h[k + 1..];
    assert h == high + low;
    HexValueAppend(high, low);
    HexValueBound(low);
    assert high[..|high| - 1] == h[..k];
    DigitAtPlace(HexValue(h), HexValue(high), Pow16(|low|), HexValue(low), HexValue(h[..k]), HexDigitValue(h[k]));
  }

  /** Dividing by `m` (2, 4 or 8) and taking the parity sees only a
      number's last base-16 digit. */
  lemma NibbleBit(y: nat, d: nat, m: nat)
    requires y % 16 == d && (m == 2 || m == 4 || m == 8)
    ensures (y / m) % 2 == (d / m) % 2
  {
    var z, k := y / 16, 16 / m;
    var q := k * z + d / m;
    assert y == q * m + d % m;
    DivModUnique(y, m, q, d % m);
    var half := (k / 2) * z + (d / m) / 2;
    assert q == half * 2 + (d / m) % 2;
    DivModUnique(q, 2, half, (d / m) % 2);
  }

  /** Bit `j` of a nibble's place, for j = 1, 2, 3: `m` is 2, 4 or 8. */
  lemma BitOfNibble(u: nat, p: nat, m: nat, d: nat)
    requires p > 0 && (m == 2 || m == 4 || m == 8)
    requires (u / p) % 16 == d
    ensures (u / (p * m)) % 2 == (d / m) % 2
  {
    DivDiv(u, p, m);
    NibbleBit(u / p, d, m);
  }

  /** Bits 63 and 62 are the top two bits of the base-16 digit at place 15. */
  lemma TopBitsOfDigit(u: nat, d: nat)
    requires (u / Pow16(15)) % 16 == d
    ensures (u / Pow2(63)) % 2 == (d / 8) % 2
    ensures (u / Pow2(62)) % 2 == (d / 4) % 2
  {
    Pow2Pow16(15);
    var p := Pow2(60);
    Pow2Add(60, 3);
    Pow2Add(60, 2);
    assert Pow2(3) == 8 && Pow2(2) == 4;
    BitOfNibble(u, p, 8, d);
    BitOfNibble(u, p, 4, d);
  }

  /** The variant is RFC 4122 exactly when the base-16 digit whose place
      holds bits 60 to 63 is 8, 9, 10 or 11. */
  lemma VariantDigit(u: nat, d: nat)
    requires (u / Pow16(15)) % 16 == d
    ensures VariantOf(u) == Rfc4122 <==> 8 <= d <= 11
  {
    TopBitsOfDigit(u, d);
    VariantBits(u);
    DigitBits(d, (u / Pow2(63)) % 2, (u / Pow2(62)) % 2);
  }

  /** The variant is RFC 4122 exactly when bit 63 is set and bit 62 clear. */
  lemma VariantBits(u: nat)
    ensures VariantOf(u) == Rfc4122 <==> (u / Pow2(63)) % 2 == 1 && (u / Pow2(62)) % 2 == 0
  {
  }

  lemma DigitBits(d: nat, b3: int, b2: int)
    requires d < 16 && b3 == (d / 8) % 2 && b2 == (d / 4) % 2
    ensures (b3 == 1 && b2 == 0) <==> 8 <= d <= 11
  {
  }

  /** The version is the first digit of the third group, and the variant is
      RFC 4122 exactly when the first digit of the fourth group is 8, 9, a or b. */
  lemma VersionDigits(h: string)
    requires |h| == 32 && AllHexDigits(h)
    ensures VersionOf(HexValue(h)) == Some(4) <==>
      HexDigitValue(h[12]) == 4 && 8 <= HexDigitValue(h[16]) <= 11
  {
    var u := HexValue(h);
    Nibble(h, 12);
    Nibble(h, 16);
    Pow2Pow16(19);
    VariantDigit(u, HexDigitValue(h[16]));
  }

  // ---------------------------------------------------------------------
  // Dashes

  lemma {:induction false} HyphenlessAppend(a: string, b: string)
    ensures Hyphenless(a + b) == Hyphenless(a) + Hyphenless(b)
  {
    if a != [] {
      assert (a + b)[1..] == a[1..] + b;
      HyphenlessAppend(a[1..], b);
    } else {
      assert a + b == b;
    }
  }

  lemma {:induction false} HyphenlessOfHex(s: string)
    requires AllHexDigits(s)
    ensures Hyphenless(s) == s
  {
    if s != [] {
      HyphenlessOfHex(s[1..]);
      assert [s[0]] + s[1..] == s;
    }
  }

  /** Dropping the dashes from hexadecimal digits, a dash and more keeps
      the digits and continues after the dash. */
  lemma HyphenlessGroup(g: string, rest: string)
    requires AllHexDigits(g)
    ensures Hyphenless(g + "-" + rest) == g + Hyphenless(rest)
  {
    var t := "-" + rest;
    assert t[0] == '-' && t[1..] == rest;
    assert Hyphenless(t) == Hyphenless(rest);
    assert g + "-" + rest == g + t;
    HyphenlessAppend(g, t);
    HyphenlessOfHex(g);
  }

  /** A string shaped like the client-ID pattern drops its four dashes and
      leaves its 32 digits, group by group. */
  lemma HyphenlessOfCid(s: string)
    requires CidPattern(s)
    ensures Hyphenless(s) == s[..8] + s[9..13] + s[14..18] + s[19..23] + s[24..]
  {
    assert s == s[..8] + "-" + s[9..];
    assert s[9..] == s[9..13] + "-" + s[14..];
    assert s[14..] == s[14..18] + "-" + s[19..];
    assert s[19..] == s[19..23] + "-" + s[24..];
    HyphenlessGroup(s[..8], s[9..]);
    HyphenlessGroup(s[9..13], s[14..]);
    HyphenlessGroup(s[14..18], s[19..]);
    HyphenlessGroup(s[19..23], s[24..]);
    HyphenlessOfHex(s[24..]);
  }

  /** Every string the client-ID pattern accepts parses as a UUID, whose
      version is 4 exactly when the third group starts with `4` and the
      fourth group starts with 8, 9, a or b (of either case). */
  lemma CidVersion(s: string)
    requires CidPattern(s)
    ensures ParseUuid(s).Some?
    ensures VersionOf(ParseUuid(s).value) == Some(4) <==>
      s[14] == '4' && s[19] in "89abAB"
  {
    HyphenlessOfCid(s);
    var h := Hyphenless(s);
    assert |h| == 32;
    forall i | 0 <= i < 32
      ensures IsHexDigit(h[i])
    {
      if i < 8 {
        assert h[i] == s[..8][i];
      } else if i < 12 {
        assert h[i] == s[9..13][i - 8];
      } else if i < 16 {
        assert h[i] == s[14..18][i - 12];
      } else if i < 20 {
        assert h[i] == s[19..23][i - 16];
      } else {
        assert h[i] == s[24..][i - 20];
      }
    }
    assert h[12] == s[14] && h[16] == s[19];
    VersionDigits(h);
  }
}
