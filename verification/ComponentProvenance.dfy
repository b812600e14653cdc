/** Stamping a WebAssembly component with a digest section and reading it back
    (scripts/ui/component-wit-provenance.py; sections 5.2.2 and 5.5.3 of the WebAssembly Core Specification). */
module ComponentProvenance {

  import opened Text
  import opened Utf8

  // ----- ULEB128 -----

  /** Seven bits to a byte, low ones first, with the high bit on all but the last. */
  function EncodeUleb(v: nat): (bs: seq<byte>)
    ensures |bs| >= 1
  {
    if v < 128 then [v] else [v % 128 + 128] + EncodeUleb(v / 128)
  }

  method EncodeUleb128(value: int) returns (r: Result<seq<byte>, string>)
    ensures r == if value < 0 then Err("ULEB128 values must be non-negative") else Ok(EncodeUleb(value))
  {
    if value < 0 {
      return Err("ULEB128 values must be non-negative");
    }
    var encoded: seq<byte>, v := [], value;
    while v >= 128
      invariant v >= 0 && encoded + EncodeUleb(v) == EncodeUleb(value)
      decreases v
    {
      encoded := encoded + [v % 128 + 128];
      v := v / 128;
    }
    r := Ok(encoded + [v]);
  }

  datatype Read = Read(value: nat, next: nat)

  /** Reads a value after `k` of its bytes; the eleventh byte is refused. */
  function DecodeUleb(data: seq<byte>, offset: nat, k: nat): (r: Option<Read>)
    ensures r.Some? ==> offset < r.value.next <= |data|
    decreases |data| - offset
  {
    if offset >= |data| || 7 * k >= 64 then None
    else if data[offset] < 128 then Some(Read(data[offset], offset + 1))
    else
      match DecodeUleb(data, offset + 1, k + 1)
      case None => None
      case Some(rest) => Some(Read(data[offset] - 128 + 128 * rest.value, rest.next))
  }

  function Pow128(k: nat): (p: nat)
    ensures p >= 1
  {
    if k == 0 then 1 else 128 * Pow128(k - 1)
  }

  function Resumed(value: nat, k: nat, rest: Option<Read>): Option<Read>
  {
    match rest
    case None => None
    case Some(r) => Some(Read(value + Pow128(k) * r.value, r.next))
  }

  /** The loop: `value` never reaches bit `shift`, so the bitwise or of the source adds. */
  method DecodeUleb128(data: seq<byte>, start: nat) returns (r: Option<Read>)
    ensures r == DecodeUleb(data, start, 0)
  {
    var value, k, offset := 0, 0, start;
    ResumedFromStart(DecodeUleb(data, start, 0));
    while true
      invariant 0 <= value < Pow128(k)
      invariant DecodeUleb(data, start, 0) == Resumed(value, k, DecodeUleb(data, offset, k))
      decreases |data| - offset
    {
      if offset >= |data| || 7 * k >= 64 {
        return None;
      }
      var b := data[offset];
      ResumedStep(value, k, b, DecodeUleb(data, offset + 1, k + 1));
      value := value + b % 128 * Pow128(k);
      offset := offset + 1;
      if b < 128 {
        return Some(Read(value, offset));
      }
      k := k + 1;
    }
  }

  lemma ResumedFromStart(rest: Option<Read>)
    ensures Resumed(0, 0, rest) == rest
  {
  }

  /** One more byte in front, whether or not more follow. */
  lemma ResumedStep(value: nat, k: nat, b: byte, rest: Option<Read>)
    requires value < Pow128(k)
    ensures value + b % 128 * Pow128(k) < Pow128(k + 1)
    ensures b < 128 ==> b % 128 * Pow128(k) == Pow128(k) * b
    ensures b >= 128 && rest.Some? ==>
              Resumed(value, k, Some(Read(b - 128 + 128 * rest.value.value, rest.value.next)))
              == Resumed(value + b % 128 * Pow128(k), k + 1, rest)
  {
    var p, low := Pow128(k), b % 128;
    assert Pow128(k + 1) == 128 * p;
    hide Pow128;
    BelowNextBit(value, low, p);
    Commutes(low, p);
    if b >= 128 && rest.Some? {
      Distribute(p, low, rest.value.value);
    }
  }

  lemma BelowNextBit(value: nat, low: nat, p: nat)
    requires value < p && low < 128
    ensures value + low * p < 128 * p
  {
    MulMonotone(low, 127, p);
  }

  lemma Commutes(a: nat, b: nat)
    ensures a * b == b * a
  {
  }

  lemma MulMonotone(a: nat, b: nat, p: nat)
    requires a <= b
    ensures a * p <= b * p
  {
  }

  lemma Distribute(p: nat, low: nat, v: nat)
    ensures p * (low + 128 * v) == low * p + 128 * p * v
  {
  }

  lemma EncodeLength(v: nat, n: nat)
    ensures |EncodeUleb(v)| <= n + 1 <==> v < Pow128(n + 1)
  {
    if n == 0 {
      assert Pow128(1) == 128 * Pow128(0);
    } else if v >= 128 {
      EncodeLength(v / 128, n - 1);
      DivideBound(v, Pow128(n));
    }
  }

  lemma DivideBound(v: nat, p: nat)
    ensures v / 128 < p <==> v < 128 * p
  {
  }

  /** Decoding an encoding gives the value back exactly when the encoding has at most ten bytes. */
  lemma {:induction false} DecodeEncoded(v: nat, before: seq<byte>, after: seq<byte>, k: nat)
    ensures DecodeUleb(before + EncodeUleb(v) + after, |before|, k) ==
              if 7 * (k + |EncodeUleb(v)| - 1) < 64 then Some(Read(v, |before| + |EncodeUleb(v)|)) else None
    decreases v
  {
    var data := before + EncodeUleb(v) + after;
    if v < 128 {
      assert data[|before|] == v;
    } else {
      var first := v % 128 + 128;
      assert data == (before + [first]) + EncodeUleb(v / 128) + after;
      assert data[|before|] == first;
      DecodeEncoded(v / 128, before + [first], after, k + 1);
    }
  }

  const ULEB_LIMIT: nat := 0x40_0000_0000_0000_0000

  lemma LimitIsTenBytes()
    ensures Pow128(10) == ULEB_LIMIT
  {
    assert Pow128(5) == 0x8_0000_0000;
    assert Pow128(10) == 128 * 128 * 128 * 128 * 128 * Pow128(5);
  }

  /** ULEB128 reading inverts writing, in any surroundings, exactly for the values below 2^70. */
  lemma UlebRoundTrip(v: nat, before: seq<byte>, after: seq<byte>)
    ensures DecodeUleb(before + EncodeUleb(v) + after, |before|, 0) ==
              if v < ULEB_LIMIT then Some(Read(v, |before| + |EncodeUleb(v)|)) else None
  {
    hide DecodeUleb, EncodeUleb;
    DecodeEncoded(v, before, after, 0);
    EncodeLength(v, 9);
    LimitIsTenBytes();
  }

  /** A value that was read is read the same when more bytes follow. */
  lemma {:induction false} DecodeExtends(data: seq<byte>, more: seq<byte>, offset: nat, k: nat)
    requires DecodeUleb(data, offset, k).Some?
    ensures DecodeUleb(data + more, offset, k) == DecodeUleb(data, offset, k)
    decreases |data| - offset
  {
    assert (data + more)[offset] == data[offset];
    if data[offset] >= 128 { DecodeExtends(data, more, offset + 1, k + 1); }
  }

  // ----- Custom sections -----

  datatype Section = Section(name: seq<byte>, payload: seq<byte>)

  const MAGIC: seq<byte> := [0x00, 0x61, 0x73, 0x6D, 0x0D, 0x00, 0x01, 0x00]

  datatype Found = Found(sections: seq<Section>, next: nat)

  /** One section: what it adds to the list, and where the next one starts. */
  function ReadSection(data: seq<byte>, offset: nat): (r: Option<Found>)
    requires offset < |data|
    ensures r.Some? ==> offset < r.value.next <= |data|
  {
    match DecodeUleb(data, offset + 1, 0)
    case None => None
    case Some(size) =>
      var end := size.next + size.value;
      if end > |data| then None
      else if data[offset] != 0 then Some(Found([], end))
      else
        match DecodeUleb(data, size.next, 0)
        case None => None
        case Some(name) =>
          var nameEnd := name.next + name.value;
          if nameEnd > end then None
          else Some(Found([Section(data[name.next..nameEnd], data[nameEnd..end])], end))
  }

  function ReadSections(data: seq<byte>, offset: nat): Option<seq<Section>>
    decreases |data| - offset
  {
    if offset >= |data| then Some([]) else
      match ReadSection(data, offset)
      case None => None
      case Some(found) => After(found.sections, ReadSections(data, found.next))
  }

  function After(sections: seq<Section>, rest: Option<seq<Section>>): Option<seq<Section>>
  {
    if rest.Some? then Some(sections + rest.value) else None
  }

  function Sections(component: seq<byte>): Option<seq<Section>>
  {
    if MAGIC <= component then ReadSections(component, |MAGIC|) else None
  }

  lemma AfterAfter(a: seq<Section>, b: seq<Section>, rest: Option<seq<Section>>)
    ensures After(a, After(b, rest)) == After(a + b, rest)
    ensures After([], rest) == rest
  {
    if rest.Some? {
      assert a + (b + rest.value) == a + b + rest.value;
      assert [] + rest.value == rest.value;
    }
  }

  /** `custom_sections`. */
  method CustomSections(component: seq<byte>) returns (r: Option<seq<Section>>)
    ensures r == Sections(component)
  {
    hide After;
    if !(MAGIC <= component) {
      return None;
    }
    var sections: seq<Section>, offset := [], |MAGIC|;
    AfterAfter([], [], ReadSections(component, offset));
    while offset < |component|
      invariant Sections(component) == After(sections, ReadSections(component, offset))
      decreases |component| - offset
    {
      ghost var found := ReadSection(component, offset);
      AfterNone(sections);
      var size := DecodeUleb128(component, offset + 1);
      if size.None? {
        return None;
      }
      var end := size.value.next + size.value.value;
      if end > |component| {
        return None;
      }
      ghost var before := sections;
      if component[offset] == 0 {
        var name := DecodeUleb128(component, size.value.next);
        if name.None? {
          return None;
        }
        var nameEnd := name.value.next + name.value.value;
        if nameEnd > end {
          return None;
        }
        sections := sections + [Section(component[name.value.next..nameEnd], component[nameEnd..end])];
      }
      assert found.Some? && found.value.next == end;
      assert before + [] == before;
      assert sections == before + found.value.sections;
      AfterAfter(before, found.value.sections, ReadSections(component, end));
      offset := end;
    }
    AfterAll(sections);
    r := Some(sections);
  }

  lemma AfterNone(sections: seq<Section>)
    ensures After(sections, None) == None
  {
  }

  lemma AfterAll(sections: seq<Section>)
    ensures After(sections, Some([])) == Some(sections)
  {
    assert sections + [] == sections;
  }

  lemma ReadSectionExtends(data: seq<byte>, more: seq<byte>, offset: nat)
    requires offset < |data| && ReadSection(data, offset).Some?
    ensures ReadSection(data + more, offset) == ReadSection(data, offset)
  {
    hide DecodeUleb;
    var all := data + more;
    DecodeExtends(data, more, offset + 1, 0);
    var size := DecodeUleb(data, offset + 1, 0).value;
    assert all[offset] == data[offset];
    if data[offset] == 0 {
      DecodeExtends(data, more, size.next, 0);
      var name, end := DecodeUleb(data, size.next, 0).value, size.next + size.value;
      assert all[name.next..name.next + name.value] == data[name.next..name.next + name.value];
      assert all[name.next + name.value..end] == data[name.next + name.value..end];
    }
  }

  /** Sections that were read are read the same when more bytes follow, and then the rest is. */
  lemma {:induction false} ReadSectionsExtends(data: seq<byte>, more: seq<byte>, offset: nat)
    requires offset <= |data| && ReadSections(data, offset).Some?
    ensures ReadSections(data + more, offset) == After(ReadSections(data, offset).value, ReadSections(data + more, |data|))
    decreases |data| - offset
  {
    hide ReadSection, After;
    var rest := ReadSections(data + more, |data|);
    if offset == |data| {
      AfterAfter([], [], rest);
    } else {
      ReadSectionExtends(data, more, offset);
      var found := ReadSection(data, offset).value;
      AfterSome(found.sections, ReadSections(data, found.next));
      ReadSectionsExtends(data, more, found.next);
      AfterAfter(found.sections, ReadSections(data, found.next).value, rest);
    }
  }

  lemma AfterSome(sections: seq<Section>, rest: Option<seq<Section>>)
    ensures After(sections, rest).Some? <==> rest.Some?
    ensures rest.Some? ==> After(sections, rest).value == sections + rest.value
  {
  }

  // ----- Stamping -----

  function SectionBody(s: Section): seq<byte>
  {
    EncodeUleb(|s.name|) + s.name + s.payload
  }

  /** A custom section as bytes. */
  function SectionBytes(s: Section): seq<byte>
  {
    [0] + EncodeUleb(|SectionBody(s)|) + SectionBody(s)
  }

  /** A written section is read back, exactly when its size fits a ten-byte ULEB128. */
  lemma SectionRoundTrip(before: seq<byte>, s: Section)
    ensures ReadSection(before + SectionBytes(s), |before|) ==
              if |SectionBody(s)| < ULEB_LIMIT then Some(Found([s], |before + SectionBytes(s)|)) else None
  {
    hide DecodeUleb, EncodeUleb;
    var data, body := before + SectionBytes(s), SectionBody(s);
    var size, nameSize := EncodeUleb(|body|), EncodeUleb(|s.name|);
    assert data == (before + [0]) + size + body;
    UlebRoundTrip(|body|, before + [0], body);
    if |body| < ULEB_LIMIT {
      var start := before + [0] + size;
      assert data == start + nameSize + (s.name + s.payload);
      UlebRoundTrip(|s.name|, start, s.name + s.payload);
      var at := |start| + |nameSize|;
      assert data[at..at + |s.name|] == s.name;
      assert |data| == |before| + 1 + |size| + |body| == at + |s.name| + |s.payload|;
      assert data[at + |s.name|..|data|] == s.payload;
      assert data[|before|] == 0;
    }
  }

  /** Appending a section to any component that parses appends exactly that section to its list. */
  lemma AppendSection(component: seq<byte>, s: Section)
    requires Sections(component).Some?
    ensures Sections(component + SectionBytes(s)) ==
              if |SectionBody(s)| < ULEB_LIMIT then Some(Sections(component).value + [s]) else None
  {
    hide ReadSection, SectionBytes, SectionBody;
    var all := component + SectionBytes(s);
    assert MAGIC <= all;
    ReadSectionsExtends(component, SectionBytes(s), |MAGIC|);
    NotEmpty(s);
    SectionRoundTrip(component, s);
    assert ReadSections(all, |all|) == Some([]);
    assert [s] + [] == [s];
  }

  lemma NotEmpty(s: Section)
    ensures |SectionBytes(s)| > 0
  {
  }

  /** Any list of sections, written after the header, is read back. */
  function WrittenSections(sections: seq<Section>): seq<byte>
  {
    if sections == [] then MAGIC else WrittenSections(sections[..|sections| - 1]) + SectionBytes(sections[|sections| - 1])
  }

  lemma {:induction false} SectionsRoundTrip(sections: seq<Section>)
    requires forall i :: 0 <= i < |sections| ==> |SectionBody(sections[i])| < ULEB_LIMIT
    ensures Sections(WrittenSections(sections)) == Some(sections)
  {
    hide SectionBytes, SectionBody, ReadSection;
    if sections == [] {
      assert MAGIC <= MAGIC;
    } else {
      var front, last := sections[..|sections| - 1], sections[|sections| - 1];
      SectionsRoundTrip(front);
      AppendSection(WrittenSections(front), last);
      assert front + [last] == sections;
    }
  }

  predicate ValidDigest(digest: string)
  {
    |digest| == 64 && forall i :: 0 <= i < |digest| ==> '0' <= digest[i] <= '9' || 'a' <= digest[i] <= 'f'
  }

  predicate IsAscii(s: string)
  {
    forall i :: 0 <= i < |s| ==> s[i] as int < 128
  }

  function Ascii(s: string): (bs: seq<byte>)
    requires IsAscii(s)
    ensures |bs| == |s| && forall i :: 0 <= i < |s| ==> bs[i] == s[i] as int
  {
    seq(|s|, i requires 0 <= i < |s| => s[i] as int)
  }

  const SECTION_NAME: seq<byte> := Ascii("automata.renderer.wit-sha256")

  function Matches(sections: seq<Section>): seq<seq<byte>>
  {
    if sections == [] then [] else
      var last := sections[|sections| - 1];
      Matches(sections[..|sections| - 1]) + if last.name == SECTION_NAME then [last.payload] else []
  }

  datatype ProvenanceError = NotAComponent | AlreadyStamped | InvalidDigest | NotOneSection | DigestMismatch

  function Stamp(component: seq<byte>, digest: string): Result<seq<byte>, ProvenanceError>
  {
    var sections := Sections(component);
    if sections.None? then Err(NotAComponent)
    else if Matches(sections.value) != [] then Err(AlreadyStamped)
    else if !ValidDigest(digest) then Err(InvalidDigest)
    else Ok(component + SectionBytes(Section(SECTION_NAME, Ascii(digest))))
  }

  function Verify(component: seq<byte>, digest: string): Option<ProvenanceError>
  {
    if !ValidDigest(digest) then Some(InvalidDigest)
    else
      var sections := Sections(component);
      if sections.None? then Some(NotAComponent)
      else if |Matches(sections.value)| != 1 then Some(NotOneSection)
      else if Matches(sections.value)[0] != Ascii(digest) then Some(DigestMismatch)
      else None
  }

  lemma StampIsSmall(digest: string)
    requires ValidDigest(digest)
    ensures |SectionBody(Section(SECTION_NAME, Ascii(digest)))| < ULEB_LIMIT
  {
    assert |SECTION_NAME| == 28;
    assert EncodeUleb(28) == [28];
  }

  lemma MatchesSnoc(sections: seq<Section>, s: Section)
    ensures Matches(sections + [s]) == Matches(sections) + if s.name == SECTION_NAME then [s.payload] else []
  {
    assert (sections + [s])[..|sections|] == sections;
  }

  /** A stamped component has the original sections and the digest section, verifies against that digest and no
      other, and cannot be stamped again. */
  lemma StampIsUndoneByReading(component: seq<byte>, digest: string, other: string)
    requires Stamp(component, digest).Ok?
    ensures var out := Stamp(component, digest).value;
            && Sections(out) == Some(Sections(component).value + [Section(SECTION_NAME, Ascii(digest))])
            && component <= out
            && Verify(out, digest) == None
            && (Verify(out, other) == None <==> other == digest)
            && Stamp(out, other) == Err(AlreadyStamped)
  {
    hide Sections, SectionBytes, Matches, SectionBody;
    var s := Section(SECTION_NAME, Ascii(digest));
    StampIsSmall(digest);
    AppendSection(component, s);
    MatchesSnoc(Sections(component).value, s);
    if ValidDigest(other) { AsciiInjective(digest, other); }
  }

  lemma AsciiInjective(a: string, b: string)
    requires IsAscii(a) && IsAscii(b)
    ensures Ascii(a) == Ascii(b) <==> a == b
  {
    if Ascii(a) == Ascii(b) {
      forall i | 0 <= i < |a|
        ensures a[i] == b[i]
      {
        assert Ascii(a)[i] == Ascii(b)[i];
      }
    }
  }
}
