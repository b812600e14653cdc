/** Encoding a path segment of a URL: UTF-16 code units to percent-encoded UTF-8
    (`encodeSpecialUrlPathSegment` and `hasCanonicalPercentEscapes` in ui/src/safeUrls.ts). */
module SafeUrls {

  import opened Text
  import opened Utf8

  type Unit = u: int | 0 <= u < 0x10000

  // ----- UTF-16 (section 2 of RFC 2781) -----

  predicate IsHigh(u: Unit)
  {
    0xD800 <= u < 0xDC00
  }

  predicate IsLow(u: Unit)
  {
    0xDC00 <= u < 0xE000
  }

  function EncodeUnits(c: Scalar): (us: seq<Unit>)
    ensures 1 <= |us| <= 2
  {
    if c < 0x10000 then [c] else [0xD800 + (c - 0x10000) / 0x400, 0xDC00 + (c - 0x10000) % 0x400]
  }

  function Encode16(s: seq<Scalar>): seq<Unit>
  {
    if s == [] then [] else EncodeUnits(s[0]) + Encode16(s[1..])
  }

  /** Where the scalar value at a position ends and what it is, or none at an unpaired surrogate. */
  function ScalarAt(us: seq<Unit>, i: nat): (r: Option<(Scalar, nat)>)
    requires i < |us|
    ensures r.Some? ==> i < r.value.1 <= |us| && us[i..r.value.1] == EncodeUnits(r.value.0)
    ensures r.None? <==> (IsHigh(us[i]) && !(i + 1 < |us| && IsLow(us[i + 1]))) || IsLow(us[i])
  {
    var first: int := us[i];
    if IsHigh(first) then
      if i + 1 >= |us| || !IsLow(us[i + 1]) then None
      else
        var c := 0x10000 + (first - 0xD800) * 0x400 + (us[i + 1] as int - 0xDC00);
        assert us[i..i + 2] == [first, us[i + 1]];
        Some((c, i + 2))
    else if IsLow(first) then None
    else
      assert us[i..i + 1] == [first];
      Some((first, i + 1))
  }

  function Decode16(us: seq<Unit>, i: nat): (r: Option<seq<Scalar>>)
    requires i <= |us|
    decreases |us| - i
  {
    if i == |us| then Some([]) else
      match ScalarAt(us, i)
      case None => None
      case Some((c, next)) => Prefixed(c, Decode16(us, next))
  }

  function Prefixed(c: Scalar, rest: Option<seq<Scalar>>): Option<seq<Scalar>>
  {
    if rest.Some? then Some([c] + rest.value) else None
  }

  /** What was decoded encodes back to the same units. */
  lemma {:induction false} Encode16OfDecode(us: seq<Unit>, i: nat)
    requires i <= |us| && Decode16(us, i).Some?
    ensures Encode16(Decode16(us, i).value) == us[i..]
    decreases |us| - i
  {
    hide EncodeUnits;
    if i < |us| {
      var (c, next) := ScalarAt(us, i).value;
      Encode16OfDecode(us, next);
      var rest := Decode16(us, next).value;
      assert ([c] + rest)[1..] == rest;
      assert us[i..] == us[i..next] + us[next..];
    }
  }

  /** A surrogate without its partner. */
  predicate Unpaired(us: seq<Unit>, i: nat)
    requires i < |us|
  {
    || (IsHigh(us[i]) && !(i + 1 < |us| && IsLow(us[i + 1])))
    || (IsLow(us[i]) && !(i > 0 && IsHigh(us[i - 1])))
  }

  predicate Paired(us: seq<Unit>)
  {
    forall i :: 0 <= i < |us| ==> !Unpaired(us, i)
  }

  /** Decoding from a boundary fails exactly when an unpaired surrogate follows. */
  lemma {:induction false} DecodesExactly(us: seq<Unit>, i: nat)
    requires i <= |us| && (i < |us| && IsLow(us[i]) ==> i == 0 || !IsHigh(us[i - 1]))
    ensures Decode16(us, i).Some? <==> forall k :: i <= k < |us| ==> !Unpaired(us, k)
    decreases |us| - i
  {
    hide EncodeUnits;
    if i < |us| {
      var here := ScalarAt(us, i);
      assert here.None? <==> Unpaired(us, i);
      if here.Some? {
        var next := here.value.1;
        NextIsBoundary(us, i);
        DecodesExactly(us, next);
        assert forall k :: i <= k < next ==> !Unpaired(us, k);
      }
    }
  }

  lemma NextIsBoundary(us: seq<Unit>, i: nat)
    requires i < |us| && ScalarAt(us, i).Some?
    ensures var next := ScalarAt(us, i).value.1;
            && (next < |us| && IsLow(us[next]) ==> !IsHigh(us[next - 1]))
            && forall k :: i < k < next ==> !Unpaired(us, k)
  {
  }

  // ----- Percent encoding (section 2.1 of RFC 3986) -----

  predicate MustEncode(b: byte)
  {
    || b <= 0x20 || b >= 0x7F || b == 0x22 || b == 0x23 || b == 0x25 || b == 0x2F || b == 0x3C
    || b == 0x3E || b == 0x3F || b == 0x5C || b == 0x60 || b == 0x7B || b == 0x7D
  }

  function HexDigit(d: nat): char
    requires d < 16
  {
    if d < 10 then ('0' as int + d) as char else ('A' as int + d - 10) as char
  }

  function EncodeByte(b: byte): string
  {
    if MustEncode(b) then ['%', HexDigit(b / 16), HexDigit(b % 16)] else [b as char]
  }

  function EncodeBytes(bs: seq<byte>): string
  {
    if bs == [] then "" else EncodeByte(bs[0]) + EncodeBytes(bs[1..])
  }

  lemma {:induction false} EncodeBytesConcat(a: seq<byte>, b: seq<byte>)
    ensures EncodeBytes(a + b) == EncodeBytes(a) + EncodeBytes(b)
  {
    hide EncodeByte;
    if a == [] {
      assert a + b == b;
    } else {
      assert (a + b)[1..] == a[1..] + b;
      EncodeBytesConcat(a[1..], b);
      assert EncodeByte(a[0]) + (EncodeBytes(a[1..]) + EncodeBytes(b)) == EncodeByte(a[0]) + EncodeBytes(a[1..]) + EncodeBytes(b);
    }
  }

  function HexValue(c: char): Option<nat>
  {
    if '0' <= c <= '9' then Some(c as int - '0' as int)
    else if 'A' <= c <= 'F' then Some(c as int - 'A' as int + 10)
    else if 'a' <= c <= 'f' then Some(c as int - 'a' as int + 10)
    else None
  }

  /** Reading percent-encoded ASCII back to bytes. */
  function PercentDecode(s: string): Option<seq<byte>>
    decreases |s|
  {
    if s == "" then Some([])
    else if s[0] == '%' then
      if |s| < 3 || HexValue(s[1]).None? || HexValue(s[2]).None? then None
      else PrefixedByte(16 * HexValue(s[1]).value + HexValue(s[2]).value, PercentDecode(s[3..]))
    else if s[0] as int >= 0x80 then None
    else PrefixedByte(s[0] as int, PercentDecode(s[1..]))
  }

  function PrefixedByte(b: nat, rest: Option<seq<byte>>): Option<seq<byte>>
  {
    if b < 256 && rest.Some? then Some([b] + rest.value) else None
  }

  lemma HexRoundTrip(b: byte)
    ensures HexValue(HexDigit(b / 16)) == Some(b / 16) && HexValue(HexDigit(b % 16)) == Some(b % 16)
    ensures 16 * (b / 16) + b % 16 == b
  {
  }

  lemma DecodeOneByte(b: byte, rest: string)
    ensures PercentDecode(EncodeByte(b) + rest) == PrefixedByte(b, PercentDecode(rest))
  {
    var s := EncodeByte(b) + rest;
    assert s[|EncodeByte(b)|..] == rest;
    if MustEncode(b) {
      HexRoundTrip(b);
    }
  }

  lemma {:induction false} DecodeOfEncodeBytes(bs: seq<byte>)
    ensures PercentDecode(EncodeBytes(bs)) == Some(bs)
  {
    hide EncodeByte;
    if bs != [] {
      DecodeOfEncodeBytes(bs[1..]);
      DecodeOneByte(bs[0], EncodeBytes(bs[1..]));
      assert [bs[0]] + bs[1..] == bs;
    }
  }

  predicate UpperHex(c: char)
  {
    '0' <= c <= '9' || 'A' <= c <= 'F'
  }

  predicate EscapeAt(s: string, i: nat)
  {
    i + 2 < |s| && UpperHex(s[i + 1]) && UpperHex(s[i + 2])
  }

  /** Every percent sign starts a two-digit upper-case escape. */
  predicate CanonicalEscapes(s: string)
  {
    forall i :: 0 <= i < |s| && s[i] == '%' ==> EscapeAt(s, i)
  }

  /** Nothing that would end or split a path segment. */
  predicate OneSegment(s: string)
  {
    forall i :: 0 <= i < |s| ==> s[i] != '/' && s[i] != '?' && s[i] != '#' && s[i] != '\\' && ' ' < s[i] < 127 as char
  }

  lemma ByteIsSafe(b: byte)
    ensures CanonicalEscapes(EncodeByte(b)) && OneSegment(EncodeByte(b))
  {
  }

  lemma SafeConcat(a: string, b: string)
    requires CanonicalEscapes(a) && OneSegment(a) && CanonicalEscapes(b) && OneSegment(b)
    ensures CanonicalEscapes(a + b) && OneSegment(a + b)
  {
    var s := a + b;
    assert (forall i :: 0 <= i < |a| ==> s[i] == a[i]) && forall i :: |a| <= i < |s| ==> s[i] == b[i - |a|];
    forall i | 0 <= i < |s| && s[i] == '%'
      ensures EscapeAt(s, i)
    {
      if i < |a| {
        assert EscapeAt(a, i);
      } else {
        assert b[i - |a|] == '%' && EscapeAt(b, i - |a|);
        assert s[i + 1] == b[i - |a| + 1] && s[i + 2] == b[i - |a| + 2];
      }
    }
  }

  lemma {:induction false} EncodedIsSafe(bs: seq<byte>)
    ensures CanonicalEscapes(EncodeBytes(bs)) && OneSegment(EncodeBytes(bs))
  {
    hide EncodeByte;
    if bs == [] {
    } else {
      EncodedIsSafe(bs[1..]);
      ByteIsSafe(bs[0]);
      hide CanonicalEscapes, OneSegment;
      SafeConcat(EncodeByte(bs[0]), EncodeBytes(bs[1..]));
    }
  }

  // ----- The two loops -----

  /** Decode UTF-16, encode UTF-8, percent-encode. */
  function EncodeSegment(us: seq<Unit>): Option<string>
  {
    Encoded(Decode16(us, 0))
  }

  function Encoded(s: Option<seq<Scalar>>): Option<string>
  {
    if s.Some? then Some(EncodeBytes(Encode(s.value))) else None
  }

  function Continued(done: string, rest: Option<string>): Option<string>
  {
    if rest.Some? then Some(done + rest.value) else None
  }

  lemma ContinuedStep(done: string, c: Scalar, rest: Option<seq<Scalar>>)
    ensures Continued(done, Encoded(Prefixed(c, rest))) == Continued(done + EncodeBytes(EncodeScalar(c)), Encoded(rest))
  {
    hide EncodeBytes, EncodeScalar;
    if rest.Some? {
      assert ([c] + rest.value)[1..] == rest.value;
      EncodeBytesConcat(EncodeScalar(c), Encode(rest.value));
      assert done + (EncodeBytes(EncodeScalar(c)) + EncodeBytes(Encode(rest.value)))
             == done + EncodeBytes(EncodeScalar(c)) + EncodeBytes(Encode(rest.value));
    }
  }

  lemma ContinuedEnds(done: string, rest: Option<string>)
    ensures Continued("", rest) == rest && Continued(done, Encoded(Some([]))) == Some(done) && Continued(done, Encoded(None)) == None
  {
    assert rest.Some? ==> "" + rest.value == rest.value;
    assert done + "" == done;
  }

  /** The bytes of one scalar value, one `encodeSpecialUrlPathByte` after the other. */
  method EncodeCodePoint(c: Scalar) returns (encoded: string)
    ensures encoded == EncodeBytes(EncodeScalar(c))
  {
    hide EncodeByte;
    if c <= 0x7F {
      encoded := EncodeByte(c);
      assert [c][1..] == [];
      assert EncodeBytes([c]) == EncodeByte(c) + "";
    } else if c <= 0x7FF {
      encoded := EncodeByte(0xC0 + c / 64);
      encoded := encoded + EncodeByte(0x80 + c % 64);
      BytesOf2(0xC0 + c / 64, 0x80 + c % 64);
    } else if c <= 0xFFFF {
      encoded := EncodeByte(0xE0 + c / 4096);
      encoded := encoded + EncodeByte(0x80 + c / 64 % 64);
      encoded := encoded + EncodeByte(0x80 + c % 64);
      BytesOf3(0xE0 + c / 4096, 0x80 + c / 64 % 64, 0x80 + c % 64);
    } else {
      encoded := EncodeByte(0xF0 + c / 262144);
      encoded := encoded + EncodeByte(0x80 + c / 4096 % 64);
      encoded := encoded + EncodeByte(0x80 + c / 64 % 64);
      encoded := encoded + EncodeByte(0x80 + c % 64);
      BytesOf4(0xF0 + c / 262144, 0x80 + c / 4096 % 64, 0x80 + c / 64 % 64, 0x80 + c % 64);
    }
  }

  lemma BytesOf1(a: byte)
    ensures EncodeBytes([a]) == EncodeByte(a)
  {
    hide EncodeByte;
    assert [a][1..] == [];
    assert EncodeByte(a) + "" == EncodeByte(a);
  }

  lemma BytesOf2(a: byte, b: byte)
    ensures EncodeBytes([a, b]) == EncodeByte(a) + EncodeByte(b)
  {
    hide EncodeByte;
    assert [a, b] == [a] + [b];
    EncodeBytesConcat([a], [b]);
    BytesOf1(a);
    BytesOf1(b);
  }

  lemma BytesOf3(a: byte, b: byte, c: byte)
    ensures EncodeBytes([a, b, c]) == EncodeByte(a) + EncodeByte(b) + EncodeByte(c)
  {
    hide EncodeByte, EncodeBytes;
    assert [a, b, c] == [a, b] + [c];
    EncodeBytesConcat([a, b], [c]);
    BytesOf2(a, b);
    BytesOf1(c);
  }

  lemma BytesOf4(a: byte, b: byte, c: byte, d: byte)
    ensures EncodeBytes([a, b, c, d]) == EncodeByte(a) + EncodeByte(b) + EncodeByte(c) + EncodeByte(d)
  {
    hide EncodeByte, EncodeBytes;
    assert [a, b, c, d] == [a, b, c] + [d];
    EncodeBytesConcat([a, b, c], [d]);
    BytesOf3(a, b, c);
    BytesOf1(d);
  }

  /** `encodeSpecialUrlPathSegment`: one pass that decodes UTF-16, encodes UTF-8 and escapes bytes at once. */
  method EncodeSpecialUrlPathSegment(value: seq<Unit>) returns (r: Option<string>)
    ensures r == EncodeSegment(value)
    ensures r.Some? <==> Paired(value)
  {
    hide EncodeBytes, EncodeScalar, Encoded, Continued;
    DecodesExactly(value, 0);
    EncodedSome(Decode16(value, 0));
    var encoded, index := "", 0;
    ContinuedEnds("", EncodeSegment(value));
    while index < |value|
      invariant index <= |value| && EncodeSegment(value) == Continued(encoded, Encoded(Decode16(value, index)))
    {
      var first: int := value[index];
      var codePoint: int, start := first, index;
      ContinuedEnds(encoded, None);
      if 0xD800 <= first <= 0xDBFF {
        if index + 1 >= |value| {
          return None;
        }
        var second: int := value[index + 1];
        if second < 0xDC00 || second > 0xDFFF {
          return None;
        }
        codePoint := 0x10000 + (first - 0xD800) * 0x400 + (second - 0xDC00);
        index := index + 1;
      } else if 0xDC00 <= first <= 0xDFFF {
        return None;
      }
      assert ScalarAt(value, start) == Some((codePoint, index + 1));
      var bytes := EncodeCodePoint(codePoint);
      ContinuedStep(encoded, codePoint, Decode16(value, index + 1));
      encoded := encoded + bytes;
      index := index + 1;
    }
    ContinuedEnds(encoded, None);
    r := Some(encoded);
  }

  lemma EncodedSome(s: Option<seq<Scalar>>)
    ensures Encoded(s).Some? <==> s.Some?
  {
  }

  /** `hasCanonicalPercentEscapes`. */
  method HasCanonicalPercentEscapes(value: string) returns (ok: bool)
    ensures ok == CanonicalEscapes(value)
  {
    var index := FindPercent(value, 0);
    while index < |value|
      invariant index <= |value| && (index < |value| ==> value[index] == '%')
      invariant forall i :: 0 <= i < index && value[i] == '%' ==> EscapeAt(value, i)
      decreases |value| - index
    {
      if !EscapeAt(value, index) {
        return false;
      }
      var next := FindPercent(value, index + 3);
      assert value[index + 1] != '%' && value[index + 2] != '%';
      index := next;
    }
    ok := true;
  }

  /** The first percent sign from a position on, or the length. */
  function FindPercent(s: string, start: nat): (k: nat)
    requires start <= |s|
    ensures start <= k <= |s| && (k < |s| ==> s[k] == '%') && forall i :: start <= i < k ==> s[i] != '%'
    decreases |s| - start
  {
    if start == |s| || s[start] == '%' then start else FindPercent(s, start + 1)
  }

  // ----- What the encoding guarantees -----

  /** Encoding fails exactly on an unpaired surrogate; otherwise percent-decoding gives the UTF-8 of the text, which
      is one path segment with canonical escapes. */
  lemma EncodeSegmentIsUtf8(us: seq<Unit>)
    ensures EncodeSegment(us).Some? <==> Paired(us)
    ensures EncodeSegment(us).Some? ==>
              && Decode16(us, 0).Some? && Encode16(Decode16(us, 0).value) == us
              && PercentDecode(EncodeSegment(us).value) == Some(Encode(Decode16(us, 0).value))
              && OneSegment(EncodeSegment(us).value) && CanonicalEscapes(EncodeSegment(us).value)
  {
    hide EncodeBytes, PercentDecode, OneSegment, CanonicalEscapes, Encode, Encode16;
    DecodesExactly(us, 0);
    if EncodeSegment(us).Some? {
      Encode16OfDecode(us, 0);
      assert us[0..] == us;
      DecodeOfEncodeBytes(Encode(Decode16(us, 0).value));
      EncodedIsSafe(Encode(Decode16(us, 0).value));
    }
  }

  /** Different texts have different encodings. */
  lemma EncodeSegmentInjective(a: seq<Unit>, b: seq<Unit>)
    requires EncodeSegment(a).Some? && EncodeSegment(a) == EncodeSegment(b)
    ensures a == b
  {
    hide EncodeBytes, PercentDecode, OneSegment, CanonicalEscapes, Encode, Encode16, Decode16;
    EncodeSegmentIsUtf8(a);
    EncodeSegmentIsUtf8(b);
    EncodeInjective(Decode16(a, 0).value, Decode16(b, 0).value);
  }

  /** Printable ASCII other than the characters a path segment of a special URL must escape. */
  predicate StandsAsIs(n: int)
  {
    0x21 <= n <= 0x7E && n as char !in ['"', '#', '%', '/', '<', '>', '?', '\\', '`', '{', '}']
  }

  /** A byte is written as itself exactly when it may stand, and otherwise as its two upper-case hexadecimal digits. */
  lemma ByteExactly(b: byte)
    ensures EncodeByte(b) == [b as char] <==> StandsAsIs(b)
    ensures !StandsAsIs(b) ==>
              var e := EncodeByte(b);
              && |e| == 3 && e[0] == '%' && UpperHex(e[1]) && UpperHex(e[2])
              && HexValue(e[1]) == Some(b / 16) && HexValue(e[2]) == Some(b % 16)
  {
    HexRoundTrip(b);
  }

  predicate Harmless(c: char)
  {
    0x21 <= c as int <= 0x7E && c !in ['/', '?', '#', '\\', '"', '<', '>']
  }

  lemma ByteIsHarmless(b: byte)
    ensures forall i :: 0 <= i < |EncodeByte(b)| ==> Harmless(EncodeByte(b)[i])
  {
  }

  lemma {:induction false} EncodedIsHarmless(bs: seq<byte>)
    ensures forall i :: 0 <= i < |EncodeBytes(bs)| ==> Harmless(EncodeBytes(bs)[i])
  {
    hide Harmless, EncodeByte;
    if bs != [] {
      EncodedIsHarmless(bs[1..]);
      ByteIsHarmless(bs[0]);
    }
  }

  /** Nothing in an encoded segment ends it or splits it. */
  lemma SegmentStaysWhole(us: seq<Unit>)
    requires EncodeSegment(us).Some?
    ensures var s := EncodeSegment(us).value;
            && '/' !in s && '?' !in s && '#' !in s && '\\' !in s && '"' !in s && '<' !in s && '>' !in s
            && forall i :: 0 <= i < |s| ==> 0x21 <= s[i] as int <= 0x7E
  {
    hide Decode16, EncodeBytes, Encode;
    EncodedIsHarmless(Encode(Decode16(us, 0).value));
  }

  lemma OneUnit(us: seq<Unit>, i: nat)
    requires i < |us| && StandsAsIs(us[i])
    ensures ScalarAt(us, i) == Some((us[i], i + 1)) && EncodeScalar(us[i]) == [us[i]]
  {
  }

  predicate TextStands(text: string)
  {
    forall k :: 0 <= k < |text| ==> StandsAsIs(text[k] as int)
  }

  function Units(text: string): (us: seq<Unit>)
    requires TextStands(text)
    ensures |us| == |text| && forall k :: 0 <= k < |text| ==> us[k] == text[k] as int
  {
    seq(|text|, k requires 0 <= k < |text| => text[k] as int)
  }

  lemma NoBytes()
    ensures EncodeBytes([]) == ""
  {
  }

  lemma {:induction false} StandingUnits(text: string, i: nat)
    requires TextStands(text) && i <= |text|
    ensures Encoded(Decode16(Units(text), i)) == Some(text[i..])
    decreases |text| - i
  {
    hide EncodeScalar, EncodeByte, ScalarAt, StandsAsIs, Units, EncodeBytes;
    var us := Units(text);
    if i == |text| {
      assert text[i..] == "" && Encode([]) == [];
      NoBytes();
    } else {
      assert StandsAsIs(us[i]);
      OneUnit(us, i);
      StandingUnits(text, i + 1);
      var rest := Decode16(us, i + 1).value;
      assert ([us[i] as int] + rest)[1..] == rest && ([us[i] as int] + rest)[0] == us[i];
      assert Encode([us[i] as int] + rest) == [us[i] as int] + Encode(rest);
      ByteExactly(us[i]);
      EncodeBytesConcat([us[i]], Encode(rest));
      BytesOf1(us[i]);
      assert text[i..] == [text[i]] + text[i + 1..];
    }
  }

  /** A text of characters that may stand is its own encoding. */
  lemma PlainTextStays(text: string)
    requires TextStands(text)
    ensures EncodeSegment(Units(text)) == Some(text)
  {
    hide Encoded, Decode16, TextStands, Units;
    StandingUnits(text, 0);
    assert text[0..] == text;
  }
}
