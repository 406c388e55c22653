/** strconv.Itoa for the non-negative positions that bolt MGet turns into
    result labels, and the labels themselves. */
module Strconv {
  import opened ByteOrder

  const Zero: byte := 48   // '0'
  const Colon: byte := 58  // ':'

  predicate IsDigit(c: byte)
  {
    Zero <= c < Zero + 10
  }

  /** Decimal digits of n, no leading zeros. */
  function Itoa(n: nat): (r: Bytes)
    ensures |r| > 0
    ensures forall i :: 0 <= i < |r| ==> IsDigit(r[i])
  {
    if n < 10 then [Zero + n] else Itoa(n / 10) + [Zero + n % 10]
  }

  /** The decimal reading of a digit string. */
  function Atoi(s: Bytes): nat
    requires forall i :: 0 <= i < |s| ==> IsDigit(s[i])
  {
    if s == [] then 0
    else
      var d := s[|s| - 1];
      assert IsDigit(d);
      Atoi(s[..|s| - 1]) * 10 + (d - Zero)
  }

  lemma {:induction false} AtoiItoa(n: nat)
    ensures Atoi(Itoa(n)) == n
  {
    if n >= 10 {
      var s := Itoa(n);
      assert s[..|s| - 1] == Itoa(n / 10);
      AtoiItoa(n / 10);
    }
  }

  lemma ItoaInjective(m: nat, n: nat)
    requires Itoa(m) == Itoa(n)
    ensures m == n
  {
    AtoiItoa(m);
    AtoiItoa(n);
  }

  /** The label bolt MGet files the i-th requested key under: "<i>:<key>". */
  function Label(i: nat, key: Bytes): (r: Bytes)
    ensures |r| == |Itoa(i)| + 1 + |key|
  {
    Itoa(i) + [Colon] + key
  }

  /** A label is the digits of the position, one colon, then the key. */
  lemma LabelParts(i: nat, key: Bytes)
    ensures var r, d := Label(i, key), Itoa(i);
      r[..|d|] == d && r[|d|] == Colon && r[|d| + 1..] == key
  {
  }

  /** In a label the first colon is the one right after the digits. */
  lemma FirstColon(digits: Bytes, key: Bytes)
    requires forall i :: 0 <= i < |digits| ==> IsDigit(digits[i])
    ensures (digits + [Colon] + key)[|digits|] == Colon
    ensures forall i :: 0 <= i < |digits| ==> (digits + [Colon] + key)[i] != Colon
  {
  }

  /** Different positions never share a label, whatever the keys are,
      because the decimal part stops at the first colon. */
  lemma LabelInjective(i: nat, k: Bytes, j: nat, l: Bytes)
    requires Label(i, k) == Label(j, l)
    ensures i == j && k == l
  {
    var a, b := Itoa(i), Itoa(j);
    var s := Label(i, k);
    assert s == a + [Colon] + k == b + [Colon] + l;
    FirstColon(a, k);
    FirstColon(b, l);
    assert |a| == |b|;
    assert a == s[..|a|] == b;
    ItoaInjective(i, j);
    assert k == s[|a| + 1..] == l;
  }
}
