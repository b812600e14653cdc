/** The UTF-8 encoding of section 3 of RFC 3629, over Unicode scalar values. */
module Utf8 {

  type byte = b: int | 0 <= b < 256

  type Scalar = c: int | 0 <= c < 0x110000 && !(0xD800 <= c < 0xE000)

  function EncodeScalar(c: Scalar): (r: seq<byte>)
    ensures 1 <= |r| <= 4
  {
    if c < 0x80 then [c]
    else if c < 0x800 then [0xC0 + c / 64, 0x80 + c % 64]
    else if c < 0x10000 then [0xE0 + c / 4096, 0x80 + c / 64 % 64, 0x80 + c % 64]
    else [0xF0 + c / 262144, 0x80 + c / 4096 % 64, 0x80 + c / 64 % 64, 0x80 + c % 64]
  }

  function Encode(s: seq<Scalar>): (r: seq<byte>)
    ensures |r| >= |s|
  {
    if s == [] then [] else EncodeScalar(s[0]) + Encode(s[1..])
  }

  /** The lead byte fixes the length of the sequence it starts. */
  function LeadLength(b: byte): nat
  {
    if b < 0x80 then 1 else if b < 0xE0 then 2 else if b < 0xF0 then 3 else 4
  }

  lemma EncodeScalarLength(c: Scalar)
    ensures |EncodeScalar(c)| == LeadLength(EncodeScalar(c)[0])
  {
  }

  /** The scalar value a well-formed sequence denotes. */
  function Value(e: seq<byte>): int
    requires 1 <= |e| <= 4
  {
    if |e| == 1 then e[0]
    else if |e| == 2 then 64 * (e[0] as int - 0xC0) + (e[1] as int - 0x80)
    else if |e| == 3 then 64 * (64 * (e[0] as int - 0xE0) + (e[1] as int - 0x80)) + (e[2] as int - 0x80)
    else 64 * (64 * (64 * (e[0] as int - 0xF0) + (e[1] as int - 0x80)) + (e[2] as int - 0x80)) + (e[3] as int - 0x80)
  }

  lemma ValueOfEncode(c: Scalar)
    ensures Value(EncodeScalar(c)) == c
  {
    assert c / 4096 == c / 64 / 64;
    assert c / 262144 == c / 4096 / 64;
  }

  predicate IsTail(b: byte)
  {
    0x80 <= b <= 0xBF
  }

  /** The well-formed sequences, as the syntax of section 4 of RFC 3629 lists them. */
  predicate IsSequence(e: seq<byte>)
  {
    || (|e| == 1 && e[0] <= 0x7F)
    || (|e| == 2 && 0xC2 <= e[0] <= 0xDF && IsTail(e[1]))
    || (|e| == 3 && IsTail(e[2])
        && (|| (e[0] == 0xE0 && 0xA0 <= e[1] <= 0xBF) || (0xE1 <= e[0] <= 0xEC && IsTail(e[1]))
            || (e[0] == 0xED && 0x80 <= e[1] <= 0x9F) || (0xEE <= e[0] <= 0xEF && IsTail(e[1]))))
    || (|e| == 4 && IsTail(e[2]) && IsTail(e[3])
        && (|| (e[0] == 0xF0 && 0x90 <= e[1] <= 0xBF) || (0xF1 <= e[0] <= 0xF3 && IsTail(e[1]))
            || (e[0] == 0xF4 && 0x80 <= e[1] <= 0x8F)))
  }

  lemma EncodedIsSequence(c: Scalar)
    ensures IsSequence(EncodeScalar(c))
  {
    var n: int := c;
    Quotients(n);
    assert n / 4096 == n / 64 / 64 && n / 262144 == n / 4096 / 64;
  }

  lemma Quotients(n: int)
    requires 0 <= n < 0x110000
    ensures 0x80 <= n < 0x800 ==> 2 <= n / 64 < 32
    ensures 0x800 <= n < 0x1000 ==> n / 4096 == 0 && n / 64 % 64 >= 32
    ensures 0xD000 <= n < 0xD800 ==> n / 4096 == 13 && n / 64 % 64 < 32
    ensures 0xE000 <= n < 0x10000 ==> 14 <= n / 4096 <= 15
    ensures 0x10000 <= n < 0x40000 ==> n / 262144 == 0 && n / 4096 % 64 >= 16
    ensures 0x100000 <= n ==> n / 262144 == 4 && n / 4096 % 64 < 16
  {
  }

  lemma Digits(high: nat, low: nat)
    requires low < 64
    ensures (64 * high + low) / 64 == high && (64 * high + low) % 64 == low
  {
  }

  /** Base-64 digits of a number, as the encoder takes them. */
  lemma DigitsOf(a: nat, b: nat, c: nat, d: nat)
    requires b < 64 && c < 64 && d < 64
    ensures var v := 64 * (64 * (64 * a + b) + c) + d;
            v / 262144 == a && v / 4096 % 64 == b && v / 64 % 64 == c && v % 64 == d && v / 4096 == 64 * a + b
  {
    var v := 64 * (64 * (64 * a + b) + c) + d;
    Digits(64 * (64 * a + b) + c, d);
    Digits(64 * a + b, c);
    Digits(a, b);
    assert v / 4096 == v / 64 / 64;
    assert v / 262144 == v / 4096 / 64;
  }

  lemma SequenceIsEncoded(e: seq<byte>)
    requires IsSequence(e)
    ensures 0 <= Value(e) < 0x110000 && !(0xD800 <= Value(e) < 0xE000) && EncodeScalar(Value(e)) == e
  {
    if |e| == 2 {
      Digits(e[0] as int - 0xC0, e[1] as int - 0x80);
    } else if |e| == 3 {
      ThreeIsEncoded(e);
    } else if |e| == 4 {
      FourIsEncoded(e);
    }
  }

  lemma ThreeIsEncoded(e: seq<byte>)
    requires |e| == 3 && IsSequence(e)
    ensures 0 <= Value(e) < 0x110000 && !(0xD800 <= Value(e) < 0xE000) && EncodeScalar(Value(e)) == e
  {
    DigitsOf(0, e[0] as int - 0xE0, e[1] as int - 0x80, e[2] as int - 0x80);
  }

  lemma FourIsEncoded(e: seq<byte>)
    requires |e| == 4 && IsSequence(e)
    ensures 0 <= Value(e) < 0x110000 && !(0xD800 <= Value(e) < 0xE000) && EncodeScalar(Value(e)) == e
  {
    DigitsOf(e[0] as int - 0xF0, e[1] as int - 0x80, e[2] as int - 0x80, e[3] as int - 0x80);
  }

  /** The encoding of a scalar value is the one well-formed sequence that denotes it. */
  lemma EncodeScalarExactly(c: Scalar, e: seq<byte>)
    ensures e == EncodeScalar(c) <==> IsSequence(e) && Value(e) == c
  {
    hide EncodeScalar, Value;
    EncodedIsSequence(c);
    ValueOfEncode(c);
    if IsSequence(e) { SequenceIsEncoded(e); }
  }

  /** UTF-8 is injective on sequences of scalar values. */
  lemma {:induction false} EncodeInjective(a: seq<Scalar>, b: seq<Scalar>)
    requires Encode(a) == Encode(b)
    ensures a == b
  {
    if a == [] || b == [] {
    } else {
      var ea, eb, rest := EncodeScalar(a[0]), EncodeScalar(b[0]), Encode(a);
      EncodeScalarLength(a[0]);
      EncodeScalarLength(b[0]);
      assert rest[0] == ea[0] == eb[0];
      assert ea == rest[..|ea|] == eb;
      ValueOfEncode(a[0]);
      ValueOfEncode(b[0]);
      assert Encode(a[1..]) == rest[|ea|..] == Encode(b[1..]);
      EncodeInjective(a[1..], b[1..]);
      assert a == [a[0]] + a[1..] && b == [b[0]] + b[1..];
    }
  }

  /** The scalar values of a string. */
  function Scalars(s: string): (r: seq<Scalar>)
    ensures |r| == |s|
    ensures forall i :: 0 <= i < |s| ==> r[i] == s[i] as int
  {
    seq(|s|, i requires 0 <= i < |s| => s[i] as int)
  }

  /** `str::as_bytes`. */
  function Bytes(s: string): (r: seq<byte>)
    ensures |r| >= |s|
  {
    Encode(Scalars(s))
  }

  /** `str::len`. */
  function TextBytes(s: string): nat
  {
    |Bytes(s)|
  }

  /** ASCII text is its own encoding, one byte for each character. */
  lemma {:induction false} AsciiLength(s: string)
    requires forall i :: 0 <= i < |s| ==> s[i] as int < 0x80
    ensures |Bytes(s)| == |s| && forall i :: 0 <= i < |s| ==> Bytes(s)[i] == s[i] as int
  {
    if s != "" {
      AsciiLength(s[1..]);
      assert Scalars(s)[1..] == Scalars(s[1..]);
      assert Bytes(s) == [s[0] as int] + Bytes(s[1..]);
    }
  }

  lemma BytesInjective(a: string, b: string)
    requires Bytes(a) == Bytes(b)
    ensures a == b
  {
    EncodeInjective(Scalars(a), Scalars(b));
    forall i | 0 <= i < |a|
      ensures a[i] == b[i]
    {
      assert Scalars(a)[i] == Scalars(b)[i];
    }
  }
}
