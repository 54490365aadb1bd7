/**
  Widening of a packed argument to a `long`, as alpha_pray does it: the
  argument's byte length selects the C type it is read as (char, short, int
  or long), and the value is converted to a `long`. Bytes are little-endian
  (the Alpha's byte order); a `long` word is represented by its value.
*/
module Marshal {
  import opened Bytes
  import opened Results

  /** The platform's type sizes and whether plain `char` is signed. */
  datatype Platform = Platform(shortSize: nat, intSize: nat, longSize: nat, charSigned: bool)

  /** What C guarantees of the sizes: a char is one byte and narrower than a
      short, and short <= int <= long. */
  predicate ValidPlatform(p: Platform)
  {
    1 < p.shortSize <= p.intSize <= p.longSize
  }

  function Pow256(n: nat): (r: nat)
    ensures r > 0
  {
    if n == 0 then 1 else 256 * Pow256(n - 1)
  }

  /** The unsigned little-endian value of a byte string. */
  function Unsigned(bs: Buffer): (v: nat)
    ensures v < Pow256(|bs|)
  {
    if bs == [] then 0 else bs[0] as nat + 256 * Unsigned(bs[1..])
  }

  /** The two's-complement value of a non-empty byte string: negative exactly
      when the top bit of the last (most significant) byte is set. */
  function Signed(bs: Buffer): (v: int)
    requires |bs| > 0
  {
    var u := Unsigned(bs);
    if bs[|bs| - 1] >= 128 then u - Pow256(|bs|) else u
  }

  /** The low `n` bytes of `v` in two's complement, least significant first:
      what storing `v` into an `n`-byte integer keeps. */
  function Encode(n: nat, v: int): (bs: Buffer)
    ensures |bs| == n
  {
    if n == 0 then [] else [(v % 256) as byte] + Encode(n - 1, v / 256)
  }

  /** Widths the switch in alpha_pray accepts on a platform: 1, SHORTSIZE,
      INTSIZE when SHORTSIZE < INTSIZE < LONGSIZE, and LONGSIZE when
      LONGSIZE > SHORTSIZE. */
  predicate Handled(p: Platform, len: nat)
  {
    || len == 1
    || len == p.shortSize
    || (p.shortSize < p.intSize < p.longSize && len == p.intSize)
    || (p.longSize > p.shortSize && len == p.longSize)
  }

  /** The `long` an argument converts to, or None for an unsupported length. */
  function Widen(p: Platform, bs: Buffer): (w: Option<int>)
    requires ValidPlatform(p)
    ensures w.Some? <==> Handled(p, |bs|)
  {
    if |bs| == 1 then Some(if p.charSigned then Signed(bs) else Unsigned(bs))
    else if |bs| == p.shortSize then Some(Signed(bs))
    else if p.shortSize < p.intSize < p.longSize && |bs| == p.intSize then Some(Signed(bs))
    else if p.longSize > p.shortSize && |bs| == p.longSize then Some(Signed(bs))
    else None
  }

  /** The conditional cases lose no width: on any valid platform the lengths
      accepted are exactly those of char, short, int and long. */
  lemma HandledIffCType(p: Platform, len: nat)
    requires ValidPlatform(p)
    ensures Handled(p, len) <==> len == 1 || len == p.shortSize || len == p.intSize || len == p.longSize
  {
  }

  lemma {:induction false} EncodeUnsigned(bs: Buffer)
    ensures Encode(|bs|, Unsigned(bs)) == bs
    decreases |bs|
  {
    if bs != [] {
      var u := Unsigned(bs);
      var rest := Unsigned(bs[1..]);
      assert u % 256 == bs[0] as int && u / 256 == rest;
      EncodeUnsigned(bs[1..]);
      assert bs == [bs[0]] + bs[1..];
    }
  }

  /** Adding a multiple of 256^n does not change the low `n` bytes. */
  lemma {:induction false} EncodeShift(n: nat, v: int)
    ensures Encode(n, v - Pow256(n)) == Encode(n, v)
    decreases n
  {
    if n > 0 {
      var q := Pow256(n - 1);
      assert v - Pow256(n) == (v - 256 * q);
      assert (v - 256 * q) % 256 == v % 256;
      assert (v - 256 * q) / 256 == v / 256 - q;
      EncodeShift(n - 1, v / 256);
    }
  }

  /** Truncating a two's-complement value back to its width gives its bytes. */
  lemma SignedRoundTrip(bs: Buffer)
    requires |bs| > 0
    ensures Encode(|bs|, Signed(bs)) == bs
  {
    var n := |bs|;
    var u := Unsigned(bs);
    EncodeUnsigned(bs);
    if bs[n - 1] >= 128 {
      assert Signed(bs) == u - Pow256(n);
      EncodeShift(n, u);
    } else {
      assert Signed(bs) == u;
    }
  }

  /** Truncating the widened word back to the argument's width gives the
      argument back: every conversion is a sign extension or a copy. */
  lemma WidenRoundTrip(p: Platform, bs: Buffer)
    requires ValidPlatform(p) && Widen(p, bs).Some?
    ensures Encode(|bs|, Widen(p, bs).value) == bs
  {
    SignedRoundTrip(bs);
    EncodeUnsigned(bs);
  }

  /** The range a widened word lies in: the argument's own two's-complement
      range when it is sign-extended (every width but an unsigned char), and
      0..255 for an unsigned char. */
  predicate InExtensionRange(p: Platform, n: nat, w: int)
    requires n > 0
  {
    if n > 1 || p.charSigned then -128 * Pow256(n - 1) <= w < 128 * Pow256(n - 1)
    else 0 <= w < 256
  }

  /** The widened word is an extension of the argument: it lies in the range
      of the argument's C type (signed, or unsigned char). */
  lemma WidenRange(p: Platform, bs: Buffer)
    requires ValidPlatform(p) && Widen(p, bs).Some?
    ensures InExtensionRange(p, |bs|, Widen(p, bs).value)
  {
    SignedBounds(bs);
  }

  /** The widened word is the only value in that range whose low bytes are
      the argument: a `long` cast of a short read as zero-extended, say,
      would not be. */
  lemma WidenUnique(p: Platform, bs: Buffer, v: int)
    requires ValidPlatform(p) && Widen(p, bs).Some?
    requires Encode(|bs|, v) == bs && InExtensionRange(p, |bs|, v)
    ensures Widen(p, bs).value == v
  {
    var w := Widen(p, bs).value;
    WidenRange(p, bs);
    WidenRoundTrip(p, bs);
    assert Pow256(|bs|) == 256 * Pow256(|bs| - 1);
    EncodeInjective(|bs|, w, v);
  }

  /** Two values with the same low `n` bytes that are less than 256^n apart
      are equal. */
  lemma {:induction false} EncodeInjective(n: nat, v: int, v': int)
    requires Encode(n, v) == Encode(n, v')
    requires -(Pow256(n) as int) < v - v' < Pow256(n)
    ensures v == v'
    decreases n
  {
    if n > 0 {
      var q, q' := v / 256, v' / 256;
      assert (v % 256) as byte == Encode(n, v)[0] == Encode(n, v')[0] == (v' % 256) as byte;
      assert Encode(n - 1, q) == Encode(n, v)[1..] == Encode(n, v')[1..] == Encode(n - 1, q');
      assert v - v' == 256 * (q - q');
      assert Pow256(n) == 256 * Pow256(n - 1);
      EncodeInjective(n - 1, q, q');
    }
  }

  /** The most significant byte of a little-endian value. */
  lemma {:induction false} UnsignedTop(bs: Buffer)
    requires |bs| > 0
    ensures Unsigned(bs) == Unsigned(bs[..|bs| - 1]) + Pow256(|bs| - 1) * bs[|bs| - 1] as nat
    decreases |bs|
  {
    var n := |bs|;
    if n > 1 {
      var top := bs[n - 1] as nat;
      var mid := Unsigned(bs[1..][..n - 2]);
      var p := Pow256(n - 2);
      UnsignedTop(bs[1..]);
      assert Unsigned(bs[1..]) == mid + p * top;
      assert bs[1..][..n - 2] == bs[..n - 1][1..];
      assert Unsigned(bs[..n - 1]) == bs[0] as nat + 256 * mid;
      assert Pow256(n - 1) == 256 * p;
      ShiftDigit(mid, p, top);
    }
  }

  lemma ShiftDigit(mid: int, p: int, top: int)
    ensures 256 * (mid + p * top) == 256 * mid + (256 * p) * top
  {
    assert (256 * p) * top == 256 * (p * top);
  }

  /** A top digit below 128 keeps the value below half the range, one at or
      above 128 puts it at or above half. */
  lemma TopDigit(q: nat, low: nat, top: nat)
    requires low < q && top < 256
    ensures low + q * top < 256 * q
    ensures top >= 128 ==> 128 * q <= low + q * top
    ensures top < 128 ==> low + q * top < 128 * q
  {
    if top >= 128 {
      assert q * top == q * 128 + q * (top - 128);
    } else {
      assert q * top + q * (127 - top) == q * 127;
    }
    assert q * top + q * (255 - top) == q * 255;
  }

  /** The two's-complement range of an `n`-byte value. */
  lemma SignedBounds(bs: Buffer)
    requires |bs| > 0
    ensures -128 * Pow256(|bs| - 1) <= Signed(bs) < 128 * Pow256(|bs| - 1)
  {
    var n := |bs|;
    UnsignedTop(bs);
    TopDigit(Pow256(n - 1), Unsigned(bs[..n - 1]), bs[n - 1] as nat);
  }

  /** A widened word fits in a signed `long`. */
  lemma WidenFitsLong(p: Platform, bs: Buffer)
    requires ValidPlatform(p) && Widen(p, bs).Some?
    ensures var half := 128 * Pow256(p.longSize - 1);
      -half <= Widen(p, bs).value < half
  {
    SignedBounds(bs);
    PowMono(|bs| - 1, p.longSize - 1);
    if |bs| == 1 {
      PowMono(1, p.longSize - 1);
    }
  }

  lemma {:induction false} PowMono(m: nat, n: nat)
    requires m <= n
    ensures Pow256(m) <= Pow256(n)
    decreases n
  {
    if m < n {
      PowMono(m, n - 1);
    }
  }
}
