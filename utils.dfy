/** storage/utils.go: the 8-byte big-endian key encoding used for sequence
    keys, its decoder, and the bucket-registry membership check. */
module Utils {
  import opened ByteOrder

  const TwoTo63: nat := 0x8000_0000_0000_0000
  const TwoTo64: nat := 0x1_0000_0000_0000_0000

  /** Go's `int` on a 64-bit platform. */
  type int64 = x: int | -0x8000_0000_0000_0000 <= x < 0x8000_0000_0000_0000
  /** Go's `uint64`. */
  type uint64 = x: int | 0 <= x < 0x1_0000_0000_0000_0000

  function Pow256(n: nat): (r: nat)
    ensures r > 0
  {
    if n == 0 then 1 else 256 * Pow256(n - 1)
  }

  /** The low `width` bytes of `n`, most significant first. */
  function BigEndian(n: nat, width: nat): (r: Bytes)
    ensures |r| == width
  {
    if width == 0 then [] else BigEndian(n / 256, width - 1) + [n % 256]
  }

  /** A big-endian byte string read back by Horner's rule. */
  function Horner(s: Bytes): (r: nat)
    ensures r < Pow256(|s|)
  {
    if s == [] then 0 else Horner(s[..|s| - 1]) * 256 + s[|s| - 1]
  }

  /** The positional value: the sum of s[i] * 256^(|s|-1-i). */
  function Positional(s: Bytes): nat
  {
    if s == [] then 0 else s[0] * Pow256(|s| - 1) + Positional(s[1..])
  }

  /** Go's uint64(v) for an int: two's complement, i.e. v modulo 2^64. */
  function ToUint64(v: int64): (u: uint64)
    ensures 0 <= v ==> u == v
    ensures v < 0 ==> u == v + TwoTo64
  {
    v % TwoTo64
  }

  /** Go's int(u) for a uint64: values from 2^63 on become negative. */
  function ToInt64(u: uint64): (v: int64)
    ensures ToUint64(v) == u
  {
    if u < TwoTo63 then u else u - TwoTo64
  }

  /** U64tob: allocate an 8-byte buffer and write uint64(v) into it,
      most significant byte first (binary.BigEndian.PutUint64). */
  method U64tob(v: int64) returns (b: Bytes)
    ensures |b| == 8
    ensures b == BigEndian(ToUint64(v), 8)
  {
    var buf := new byte[8];
    var x: nat := ToUint64(v);
    var i := 8;
    while i > 0
      invariant 0 <= i <= 8
      invariant BigEndian(ToUint64(v), 8) == BigEndian(x, i) + buf[i..]
    {
      i := i - 1;
      buf[i] := x % 256;
      x := x / 256;
    }
    b := buf[..];
  }

  /** Btou64: the first eight bytes of `b` read big-endian
      (binary.BigEndian.Uint64, which panics on a shorter slice). */
  function Btou64(b: Bytes): (r: uint64)
    requires |b| >= 8
    ensures r == Positional(b[..8])
  {
    HornerIsPositional(b[..8]);
    Horner(b[..8])
  }

  lemma {:induction false} PositionalAppend(s: Bytes, c: byte)
    ensures Positional(s + [c]) == Positional(s) * 256 + c
  {
    if s != [] {
      var t := s[1..];
      assert (s + [c])[1..] == t + [c];
      PositionalAppend(t, c);
      assert s[0] * Pow256(|t| + 1) == s[0] * Pow256(|t|) * 256;
    }
  }

  lemma {:induction false} HornerIsPositional(s: Bytes)
    ensures Horner(s) == Positional(s)
  {
    if s != [] {
      var init := s[..|s| - 1];
      HornerIsPositional(init);
      PositionalAppend(init, s[|s| - 1]);
      assert init + [s[|s| - 1]] == s;
    }
  }

  /** Decoding undoes encoding for every value that fits in `width` bytes. */
  lemma {:induction false} HornerBigEndian(n: nat, width: nat)
    requires n < Pow256(width)
    ensures Horner(BigEndian(n, width)) == n
  {
    if width > 0 {
      var s := BigEndian(n, width);
      assert s[..width - 1] == BigEndian(n / 256, width - 1);
      HornerBigEndian(n / 256, width - 1);
    }
  }

  lemma Pow256Eight()
    ensures Pow256(8) == TwoTo64
  {
  }

  /** Btou64(U64tob(v)) == uint64(v): the identity for non-negative v. */
  lemma RoundTrip(v: int64)
    ensures Btou64(BigEndian(ToUint64(v), 8)) == ToUint64(v)
    ensures 0 <= v ==> Btou64(BigEndian(ToUint64(v), 8)) == v
  {
    Pow256Eight();
    var b := BigEndian(ToUint64(v), 8);
    assert b[..8] == b;
    HornerBigEndian(ToUint64(v), 8);
    HornerIsPositional(b);
  }

  /** The encoding read positionally gives back uint64(v). */
  lemma EncodingIsPositional(v: int64)
    ensures Positional(BigEndian(ToUint64(v), 8)) == ToUint64(v)
  {
    RoundTrip(v);
    var b := BigEndian(ToUint64(v), 8);
    assert b[..8] == b;
  }

  /** Btou64 looks at the first eight bytes only. */
  lemma Btou64Prefix(b: Bytes, rest: Bytes)
    requires |b| >= 8
    ensures Btou64(b + rest) == Btou64(b)
  {
    assert (b + rest)[..8] == b[..8];
  }

  /** Big-endian encoding preserves order: smaller values give byte strings
      that bytes.Compare puts first. */
  lemma {:induction false} BigEndianOrder(a: nat, b: nat, width: nat)
    requires a < b < Pow256(width)
    ensures Less(BigEndian(a, width), BigEndian(b, width))
  {
    var w := width - 1;
    if a / 256 < b / 256 {
      BigEndianOrder(a / 256, b / 256, w);
    } else {
      LessIrreflexive(BigEndian(a / 256, w));
    }
    LessAppend(BigEndian(a / 256, w), a % 256, BigEndian(b / 256, w), b % 256);
  }

  /** So 8-byte sequence keys list in allocation order. */
  lemma U64tobOrder(a: int64, b: int64)
    requires 0 <= a < b
    ensures Less(BigEndian(ToUint64(a), 8), BigEndian(ToUint64(b), 8))
  {
    Pow256Eight();
    BigEndianOrder(a, b, 8);
  }

  /** Contains: a search of `s` for an element equal to `str`. */
  function Contains(s: seq<Bytes>, str: Bytes): (r: bool)
    ensures r <==> str in s
  {
    |s| > 0 && (s[0] == str || Contains(s[1..], str))
  }
}
