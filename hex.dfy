/** Upper-case hexadecimal rendering as printf's `%X` and `%04X` produce it,
    with a parser as the partner that every rendering round-trips through. */
module Hex {
  import opened Wire

  /** '0'..'9' and 'A'..'F': the digits `%X` emits. */
  predicate IsDigit(c: byte) {
    0x30 <= c <= 0x39 || 0x41 <= c <= 0x46
  }

  predicate AllDigits(s: seq<byte>) {
    forall k :: 0 <= k < |s| ==> IsDigit(s[k])
  }

  function DigitValue(c: byte): (v: nat)
    requires IsDigit(c)
    ensures v < 16
  {
    if c <= 0x39 then (c - 0x30) as nat else (c - 0x41) as nat + 10
  }

  function Digit(d: nat): (c: byte)
    requires d < 16
    ensures IsDigit(c) && DigitValue(c) == d
  {
    if d < 10 then (0x30 + d) as byte else (0x41 + d - 10) as byte
  }

  /** The number a string of hex digits denotes, most significant digit first. */
  function Value(s: seq<byte>): nat
    requires AllDigits(s)
  {
    if s == [] then 0 else Value(s[..|s| - 1]) * 16 + DigitValue(s[|s| - 1])
  }

  function Pow16(w: nat): (p: nat)
    ensures p >= 1
  {
    if w == 0 then 1 else 16 * Pow16(w - 1)
  }

  /** The `width` lowest hex digits of `n`, zero-padded: `%0<width>X` when `n`
      has at most `width` digits. */
  function Padded(n: nat, width: nat): (r: seq<byte>)
    ensures |r| == width && AllDigits(r)
    ensures Value(r) == n % Pow16(width)
  {
    if width == 0 then []
    else
      var r := Padded(n / 16, width - 1) + [Digit(n % 16)];
      assert r[..|r| - 1] == Padded(n / 16, width - 1);
      ModPow16(n, width);
      r
  }

  lemma ModPow16(n: nat, width: nat)
    requires width > 0
    ensures (n / 16) % Pow16(width - 1) * 16 + n % 16 == n % Pow16(width)
  {
    var p := Pow16(width - 1);
    var m := n / 16;
    DivMod(m, p);
    DivMod(n, 16);
    Recombine(n, m, p, m / p, m % p, n % 16);
    assert Pow16(width) == 16 * p;
  }

  lemma DivMod(n: nat, d: nat)
    requires d >= 1
    ensures n == n / d * d + n % d && n % d < d
  {
  }

  /** `n` split as ((q * p + s) * 16 + r) leaves s * 16 + r modulo 16 * p. */
  lemma Recombine(n: nat, m: nat, p: nat, q: nat, s: nat, r: nat)
    requires m == q * p + s && n == m * 16 + r
    requires s < p && r < 16
    ensures n % (16 * p) == s * 16 + r
  {
    assert n == q * (16 * p) + (s * 16 + r) by {
      assert m * 16 == q * (16 * p) + s * 16;
    }
    assert s * 16 + r < 16 * p by {
      assert s * 16 <= (p - 1) * 16;
    }
    ModUnique(n, 16 * p, q, s * 16 + r);
  }

  lemma ModUnique(n: nat, d: nat, q: nat, r: nat)
    requires 0 <= r < d && n == q * d + r
    ensures n % d == r
  {
    var q', r' := n / d, n % d;
    assert (q - q') * d == r' - r;
    if q > q' {
      assert (q - q') * d >= d by { MulAtLeast(q - q', d); }
    } else if q < q' {
      assert (q' - q) * d >= d by { MulAtLeast(q' - q, d); }
    }
  }

  lemma MulAtLeast(a: int, d: int)
    requires a >= 1 && d >= 0
    ensures a * d >= d
  {
  }

  /** `%04X` of a 16-bit value: exactly four upper-case digits denoting it. */
  function Hex4(v: uint16): (r: seq<byte>)
    ensures |r| == 4 && AllDigits(r)
    ensures Value(r) == v as nat
  {
    assert Pow16(4) == 0x1_0000;
    Padded(v as nat, 4)
  }

  /** `%X`: the shortest upper-case rendering, with no leading zero except for 0 itself. */
  function Unpadded(n: nat): (r: seq<byte>)
    ensures |r| >= 1 && AllDigits(r)
    ensures Value(r) == n
    ensures |r| == 1 || r[0] != 0x30
  {
    if n < 16 then
      assert Value([Digit(n)]) == Value([]) * 16 + DigitValue(Digit(n));
      [Digit(n)]
    else
      var r := Unpadded(n / 16) + [Digit(n % 16)];
      assert r[..|r| - 1] == Unpadded(n / 16);
      r
  }

  /** `%X` of a value below 16^w takes at most w digits. */
  lemma {:induction false} UnpaddedWidth(n: nat, w: nat)
    requires w >= 1 && n < Pow16(w)
    ensures |Unpadded(n)| <= w
  {
    if n >= 16 {
      assert w >= 2 by { assert Pow16(1) == 16; }
      assert n / 16 < Pow16(w - 1);
      UnpaddedWidth(n / 16, w - 1);
    }
  }

  /** Two values render the same under `%04X` only if they are equal. */
  lemma Hex4Injective(a: uint16, b: uint16)
    requires Hex4(a) == Hex4(b)
    ensures a == b
  {
  }

  /** Hex digits are printable, so a digit string holds no NUL. */
  lemma DigitsHaveNoNul(s: seq<byte>)
    requires AllDigits(s)
    ensures NUL !in s
  {
  }
}
