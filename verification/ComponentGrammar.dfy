/** Which byte strings are read as components, and as which sections; when a component can be stamped and when it
    verifies (scripts/ui/component-wit-provenance.py). */
module ComponentGrammar {

  import opened Text
  import opened Utf8
  import opened ComponentProvenance

  // ----- ULEB128, shortest or not -----

  /** The sum of the low seven bits of each byte, with weights that are powers of 128. */
  function UlebValue(bs: seq<byte>): nat
  {
    if bs == [] then 0 else UlebValue(bs[..|bs| - 1]) + bs[|bs| - 1] % 128 * Pow128(|bs| - 1)
  }

  /** One to ten bytes, of which exactly the last is below 128. */
  predicate IsUleb(bs: seq<byte>, v: nat)
  {
    && 1 <= |bs| <= 10 && bs[|bs| - 1] < 128 && (forall i :: 0 <= i < |bs| - 1 ==> bs[i] >= 128)
    && v == UlebValue(bs)
  }

  lemma {:induction false} UlebValueCons(b: byte, bs: seq<byte>)
    ensures UlebValue([b] + bs) == b % 128 + 128 * UlebValue(bs)
    decreases |bs|
  {
    if bs == [] {
      assert [b] + bs == [b] && [b][..0] == [];
    } else {
      var front, last, n := bs[..|bs| - 1], bs[|bs| - 1] % 128, |bs| - 1;
      assert ([b] + bs)[..|bs|] == [b] + front;
      UlebValueCons(b, front);
      assert Pow128(n + 1) == 128 * Pow128(n);
      hide Pow128;
      Regroup(last, Pow128(n));
    }
  }

  lemma Regroup(a: nat, p: nat)
    ensures a * (128 * p) == 128 * (a * p)
  {
  }

  /** A decoded value is the value of the bytes read, which end at the first byte below 128. */
  lemma {:induction false} DecodedIsUleb(data: seq<byte>, offset: nat, k: nat)
    requires DecodeUleb(data, offset, k).Some?
    ensures var r := DecodeUleb(data, offset, k).value;
            && r.next - offset + k <= 10 && data[r.next - 1] < 128
            && (forall i :: offset <= i < r.next - 1 ==> data[i] >= 128)
            && r.value == UlebValue(data[offset..r.next])
    decreases |data| - offset
  {
    hide UlebValue;
    var r := DecodeUleb(data, offset, k).value;
    if data[offset] >= 128 {
      DecodedIsUleb(data, offset + 1, k + 1);
      UlebValueCons(data[offset], data[offset + 1..r.next]);
      assert data[offset..r.next] == [data[offset]] + data[offset + 1..r.next];
    } else {
      assert data[offset..r.next] == [data[offset]];
      UlebOfOne(data[offset]);
    }
  }

  lemma UlebOfOne(b: byte)
    ensures UlebValue([b]) == b % 128
  {
    assert [b][..0] == [];
  }

  lemma {:induction false} UlebIsDecoded(data: seq<byte>, offset: nat, next: nat, k: nat)
    requires offset < next <= |data| && next - offset + k <= 10 && data[next - 1] < 128
    requires forall i :: offset <= i < next - 1 ==> data[i] >= 128
    ensures DecodeUleb(data, offset, k) == Some(Read(UlebValue(data[offset..next]), next))
    decreases next - offset
  {
    hide UlebValue;
    if offset + 1 == next {
      assert data[offset..next] == [data[offset]];
      UlebOfOne(data[offset]);
    } else {
      UlebIsDecoded(data, offset + 1, next, k + 1);
      UlebValueCons(data[offset], data[offset + 1..next]);
      assert data[offset..next] == [data[offset]] + data[offset + 1..next];
    }
  }

  /** A value is read at a position exactly when the bytes from there are an encoding of it. */
  lemma UlebExactly(data: seq<byte>, offset: nat, v: nat, next: nat)
    requires offset <= |data|
    ensures DecodeUleb(data, offset, 0) == Some(Read(v, next)) <==> offset <= next <= |data| && IsUleb(data[offset..next], v)
  {
    hide DecodeUleb, UlebValue;
    if DecodeUleb(data, offset, 0) == Some(Read(v, next)) {
      DecodedIsUleb(data, offset, 0);
    }
    if offset <= next <= |data| && IsUleb(data[offset..next], v) {
      var bs := data[offset..next];
      assert forall i :: offset <= i < next ==> data[i] == bs[i - offset];
      UlebIsDecoded(data, offset, next, 0);
    }
  }

  // ----- Sections -----

  /** A section: its identifier, its size in some encoding, and what it holds. */
  datatype Piece =
    | Other(id: byte, size: seq<byte>, body: seq<byte>)
    | Custom(size: seq<byte>, nameSize: seq<byte>, section: Section)

  function Body(p: Piece): seq<byte>
  {
    match p
    case Other(_, _, body) => body
    case Custom(_, nameSize, s) => nameSize + s.name + s.payload
  }

  function PieceBytes(p: Piece): seq<byte>
  {
    [if p.Other? then p.id else 0] + p.size + Body(p)
  }

  predicate GoodPiece(p: Piece)
  {
    IsUleb(p.size, |Body(p)|) && (p.Other? ==> p.id != 0) && (p.Custom? ==> IsUleb(p.nameSize, |p.section.name|))
  }

  function AllBytes(pieces: seq<Piece>): seq<byte>
  {
    if pieces == [] then [] else PieceBytes(pieces[0]) + AllBytes(pieces[1..])
  }

  /** The custom sections, in order. */
  function Customs(pieces: seq<Piece>): seq<Section>
  {
    if pieces == [] then [] else (if pieces[0].Custom? then [pieces[0].section] else []) + Customs(pieces[1..])
  }

  predicate AllGood(pieces: seq<Piece>)
  {
    forall i :: 0 <= i < |pieces| ==> GoodPiece(pieces[i])
  }

  lemma Middle(a: seq<byte>, b: seq<byte>, c: seq<byte>)
    ensures (a + b + c)[|a|..|a| + |b|] == b
  {
  }

  lemma ThreeSlices(data: seq<byte>, a: nat, b: nat, c: nat, d: nat)
    requires a <= b <= c <= d <= |data|
    ensures data[a..d] == data[a..b] + data[b..c] + data[c..d]
  {
  }

  lemma CustomIsRead(start: seq<byte>, nameSize: seq<byte>, s: Section, after: seq<byte>)
    requires IsUleb(nameSize, |s.name|)
    ensures var data, m := start + (nameSize + s.name + s.payload) + after, |start| + |nameSize|;
            && DecodeUleb(data, |start|, 0) == Some(Read(|s.name|, m)) && m + |s.name| + |s.payload| <= |data|
            && data[m..m + |s.name|] == s.name && data[m + |s.name|..m + |s.name| + |s.payload|] == s.payload
  {
    hide DecodeUleb, IsUleb;
    var data := start + (nameSize + s.name + s.payload) + after;
    assert data == start + nameSize + (s.name + s.payload + after);
    Middle(start, nameSize, s.name + s.payload + after);
    UlebExactly(data, |start|, |s.name|, |start| + |nameSize|);
    assert data == (start + nameSize) + s.name + (s.payload + after);
    Middle(start + nameSize, s.name, s.payload + after);
    assert data == (start + nameSize + s.name) + s.payload + after;
    Middle(start + nameSize + s.name, s.payload, after);
  }

  lemma PieceIsRead(before: seq<byte>, p: Piece, after: seq<byte>)
    requires GoodPiece(p)
    ensures var data := before + PieceBytes(p) + after;
            |before| < |data| && ReadSection(data, |before|) == Some(Found(if p.Custom? then [p.section] else [], |before| + |PieceBytes(p)|))
  {
    hide DecodeUleb, IsUleb;
    var data, n, id := before + PieceBytes(p) + after, |before|, if p.Other? then p.id else 0;
    var start := before + [id] + p.size;
    assert data == (before + [id]) + p.size + (Body(p) + after);
    Middle(before + [id], p.size, Body(p) + after);
    UlebExactly(data, n + 1, |Body(p)|, |start|);
    assert data[n] == id;
    if p.Custom? {
      assert data == start + (p.nameSize + p.section.name + p.section.payload) + after;
      CustomIsRead(start, p.nameSize, p.section, after);
    }
  }

  lemma ReadIsPiece(data: seq<byte>, offset: nat) returns (p: Piece)
    requires offset < |data| && ReadSection(data, offset).Some?
    ensures var found := ReadSection(data, offset).value;
            GoodPiece(p) && PieceBytes(p) == data[offset..found.next] && found.sections == if p.Custom? then [p.section] else []
  {
    hide DecodeUleb, IsUleb;
    var found := ReadSection(data, offset).value;
    var size := DecodeUleb(data, offset + 1, 0).value;
    var end := size.next + size.value;
    var bytes := data[offset + 1..size.next];
    UlebExactly(data, offset + 1, size.value, size.next);
    ThreeSlices(data, offset, offset + 1, size.next, end);
    assert data[offset..offset + 1] == [data[offset]];
    if data[offset] != 0 {
      p := Other(data[offset], bytes, data[size.next..end]);
    } else {
      var name := DecodeUleb(data, size.next, 0).value;
      var nameEnd := name.next + name.value;
      UlebExactly(data, size.next, name.value, name.next);
      p := Custom(bytes, data[size.next..name.next], Section(data[name.next..nameEnd], data[nameEnd..end]));
      ThreeSlices(data, size.next, name.next, nameEnd, end);
    }
  }

  lemma {:induction false} PiecesAreRead(before: seq<byte>, pieces: seq<Piece>)
    requires AllGood(pieces)
    ensures ReadSections(before + AllBytes(pieces), |before|) == Some(Customs(pieces))
    decreases |pieces|
  {
    hide ReadSection, PieceBytes, GoodPiece;
    var data := before + AllBytes(pieces);
    if pieces == [] {
      assert data == before;
    } else {
      var p, rest := pieces[0], pieces[1..];
      assert data == before + PieceBytes(p) + AllBytes(rest);
      assert data == (before + PieceBytes(p)) + AllBytes(rest);
      PieceIsRead(before, p, AllBytes(rest));
      PiecesAreRead(before + PieceBytes(p), rest);
    }
  }

  lemma {:induction false} ReadArePieces(data: seq<byte>, offset: nat) returns (pieces: seq<Piece>)
    requires offset <= |data| && ReadSections(data, offset).Some?
    ensures AllGood(pieces) && AllBytes(pieces) == data[offset..] && Customs(pieces) == ReadSections(data, offset).value
    decreases |data| - offset
  {
    hide ReadSection, PieceBytes, GoodPiece;
    if offset == |data| {
      pieces := [];
    } else {
      var found := ReadSection(data, offset).value;
      var p := ReadIsPiece(data, offset);
      var rest := ReadArePieces(data, found.next);
      pieces := [p] + rest;
      assert pieces[1..] == rest;
      assert data[offset..] == data[offset..found.next] + data[found.next..];
    }
  }

  ghost predicate IsComponent(component: seq<byte>, sections: seq<Section>)
  {
    exists pieces :: AllGood(pieces) && component == [0x00, 0x61, 0x73, 0x6D, 0x0D, 0x00, 0x01, 0x00] + AllBytes(pieces) && Customs(pieces) == sections
  }

  /** A byte string is read as these custom sections exactly when it is the header and a sequence of well-sized sections
      with those custom ones among them. */
  lemma SectionsExactly(component: seq<byte>, sections: seq<Section>)
    ensures Sections(component) == Some(sections) <==> IsComponent(component, sections)
  {
    hide AllGood, AllBytes, Customs, ReadSections;
    if Sections(component) == Some(sections) {
      var pieces := ReadArePieces(component, |MAGIC|);
      assert component == MAGIC + component[|MAGIC|..];
    }
    if pieces :| AllGood(pieces) && component == MAGIC + AllBytes(pieces) && Customs(pieces) == sections {
      PiecesAreRead(MAGIC, pieces);
    }
  }

  // ----- Stamps -----

  /** Sixty-four lower-case hexadecimal digits. */
  predicate IsDigest(digest: string)
  {
    |digest| == 64 && forall i :: 0 <= i < |digest| ==> digest[i] in "0123456789abcdef"
  }

  lemma HexDigits(c: char)
    ensures c in "0123456789abcdef" <==> '0' <= c <= '9' || 'a' <= c <= 'f'
  {
    var hex := "0123456789abcdef";
    if '0' <= c <= '9' { assert hex[c as int - '0' as int] == c; }
    if 'a' <= c <= 'f' { assert hex[c as int - 'a' as int + 10] == c; }
  }

  lemma DigestExactly(digest: string)
    ensures ValidDigest(digest) <==> IsDigest(digest)
  {
    forall i | 0 <= i < |digest|
      ensures digest[i] in "0123456789abcdef" <==> '0' <= digest[i] <= '9' || 'a' <= digest[i] <= 'f'
    {
      HexDigits(digest[i]);
    }
  }

  predicate IsStamp(s: Section)
  {
    s.name == Ascii("automata.renderer.wit-sha256")
  }

  predicate Unstamped(sections: seq<Section>)
  {
    forall i :: 0 <= i < |sections| ==> !IsStamp(sections[i])
  }

  /** Exactly one stamp, with this payload. */
  ghost predicate StampedOnce(sections: seq<Section>, payload: seq<byte>)
  {
    exists k ::
      && 0 <= k < |sections| && IsStamp(sections[k]) && sections[k].payload == payload
      && forall j :: 0 <= j < |sections| && j != k ==> !IsStamp(sections[j])
  }

  lemma {:induction false} MatchesExactly(sections: seq<Section>, payload: seq<byte>)
    ensures Matches(sections) == [] <==> Unstamped(sections)
    ensures Matches(sections) == [payload] <==> StampedOnce(sections, payload)
    decreases |sections|
  {
    if sections != [] {
      var front, last := sections[..|sections| - 1], sections[|sections| - 1];
      MatchesExactly(front, payload);
      StampedSnoc(front, last, payload);
      assert sections == front + [last];
      OneOnly(Matches(front), last.payload, payload);
      hide StampedOnce, Unstamped;
      assert Matches(front) + [] == Matches(front);
    } else {
      assert !StampedOnce([], payload);
    }
  }

  lemma OneOnly(front: seq<seq<byte>>, last: seq<byte>, x: seq<byte>)
    ensures front + [last] == [x] <==> front == [] && last == x
  {
    if front + [last] == [x] { assert |front + [last]| == 1 && (front + [last])[0] == x; }
  }

  lemma StampedSnoc(front: seq<Section>, last: Section, payload: seq<byte>)
    ensures StampedOnce(front + [last], payload) <==>
              if IsStamp(last) then last.payload == payload && Unstamped(front) else StampedOnce(front, payload)
    ensures Unstamped(front + [last]) <==> Unstamped(front) && !IsStamp(last)
  {
    hide IsStamp;
    var all := front + [last];
    assert all[|front|] == last && forall i :: 0 <= i < |front| ==> all[i] == front[i];
    if IsStamp(last) && last.payload == payload && Unstamped(front) {
      assert StampedOnce(all, payload);
    }
    if !IsStamp(last) && StampedOnce(front, payload) {
      var k :|
        && 0 <= k < |front| && IsStamp(front[k]) && front[k].payload == payload
        && forall j :: 0 <= j < |front| && j != k ==> !IsStamp(front[j]);
      assert IsStamp(all[k]);
    }
  }

  /** A component is stamped exactly when it is one, carries no stamp and the digest is well formed; what is wrong is
      reported in that order. */
  lemma StampsExactly(component: seq<byte>, digest: string)
    ensures var r, sections := Stamp(component, digest), Sections(component);
            && (r == Err(NotAComponent) <==> forall list :: !IsComponent(component, list))
            && (r == Err(AlreadyStamped) <==> sections.Some? && !Unstamped(sections.value))
            && (r == Err(InvalidDigest) <==> sections.Some? && Unstamped(sections.value) && !IsDigest(digest))
            && (r.Ok? <==> sections.Some? && Unstamped(sections.value) && IsDigest(digest))
  {
    hide Sections, Matches, IsComponent, SectionBytes, Unstamped, StampedOnce, IsDigest, ValidDigest;
    DigestExactly(digest);
    forall list
      ensures Sections(component) == Some(list) <==> IsComponent(component, list)
    {
      SectionsExactly(component, list);
    }
    if Sections(component).Some? {
      MatchesExactly(Sections(component).value, []);
    }
  }

  /** A component verifies against a digest exactly when the digest is well formed and the component's one stamp says so. */
  lemma VerifiesExactly(component: seq<byte>, digest: string)
    ensures Verify(component, digest) == None <==>
              && IsDigest(digest) && IsAscii(digest)
              && exists sections :: IsComponent(component, sections) && StampedOnce(sections, Ascii(digest))
  {
    hide Sections, Matches, IsComponent, StampedOnce, Unstamped, IsDigest;
    DigestExactly(digest);
    forall list
      ensures Sections(component) == Some(list) <==> IsComponent(component, list)
    {
      SectionsExactly(component, list);
    }
    if ValidDigest(digest) && Sections(component).Some? {
      MatchesExactly(Sections(component).value, Ascii(digest));
    }
  }
}
