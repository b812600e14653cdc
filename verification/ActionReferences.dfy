/** Identities, record keys and record documents of the action reference index
    (crates/automata-ci-action/src/cache.rs and shared_cache.rs). */
module ActionReferences {

  import opened Text
  import opened Utf8

  datatype GitObjectAlgorithm = GitSha1 | GitSha256

  function ByteLength(algorithm: GitObjectAlgorithm): nat
  {
    if algorithm == GitSha1 then 20 else 32
  }

  datatype GitObjectId = GitObjectId(algorithm: GitObjectAlgorithm, bytes: seq<byte>)

  predicate ValidGitObjectId(id: GitObjectId)
  {
    && |id.bytes| == ByteLength(id.algorithm)
    && exists i :: 0 <= i < |id.bytes| && id.bytes[i] != 0
  }

  /** An ideal hash: a digest is its preimage, so distinct contents have distinct digests. */
  datatype Digest = Sha256(preimage: seq<byte>)

  /** Object keys. The two derived shapes carry their digest injectively in the key text. */
  datatype BlobKey = ArchiveKey(digest: Digest) | RecordKey(digest: Digest) | OtherKey(text: string)

  datatype BlobDescriptor = BlobDescriptor(key: BlobKey, digest: Digest, size: nat, mediaType: string)

  datatype Reference =
    Reference(provider: string, repository: string, revision: GitObjectId, subpath: string)

  datatype Bundle = Bundle(reference: Reference, resolvedRevision: GitObjectId, archive: BlobDescriptor)

  datatype IndexError = Conflict | Corrupt | ResourceExhausted | Unavailable

  datatype PutOutcome = Created | AlreadyPresent

  const GZIP := "application/gzip"
  const SCHEMA_VERSION: nat := 1
  const U64_LIMIT: nat := 0x1_0000_0000_0000_0000

  // ----- Validated text fields -----

  predicate IsControl(c: char)
  {
    c as int < 0x20 || 0x7F <= c as int < 0xA0
  }

  predicate ProviderByte(c: char, first: bool)
  {
    'a' <= c <= 'z' || '0' <= c <= '9' || (!first && (c == '.' || c == '-'))
  }

  predicate ValidProvider(s: string)
  {
    && 0 < |Bytes(s)| <= 64 && s != []
    && (forall i :: 0 <= i < |s| ==> ProviderByte(s[i], i == 0))
    && s[|s| - 1] != '.' && s[|s| - 1] != '-'
  }

  predicate SafeComponents(s: string)
  {
    forall part :: part in Split(s, '/') ==> part != "" && part != "." && part != ".."
  }

  predicate ValidRepository(s: string)
  {
    && 0 < |Bytes(s)| <= 512
    && !("/" <= s) && '\\' !in s
    && (forall c :: c in s ==> !IsControl(c))
    && SafeComponents(s)
  }

  predicate ValidSubpath(s: string)
  {
    || s == ""
    || (&& |Bytes(s)| <= 1024
        && !("/" <= s) && s[|s| - 1] != '/' && '\\' !in s
        && (forall c :: c in s ==> !IsControl(c))
        && SafeComponents(s))
  }

  /** Not one of the 65 control characters of Unicode. */
  predicate Visible(c: char)
  {
    0x20 <= c as int <= 0x7E || 0xA0 <= c as int
  }

  /** A path component that names something below its parent. */
  predicate SafeComponent(part: string)
  {
    part != "" && part != "." && part != ".." && forall c :: c in part ==> c != '/' && c != '\\' && Visible(c)
  }

  /** Slash-separated safe components. */
  ghost predicate IsSafePath(s: string)
  {
    exists parts :: parts != [] && (forall i :: 0 <= i < |parts| ==> SafeComponent(parts[i])) && s == Join(parts, '/')
  }

  lemma PartsOfSafe(s: string)
    ensures (SafeComponents(s) && '\\' !in s && forall c :: c in s ==> !IsControl(c)) <==> IsSafePath(s)
  {
    hide Split, Join;
    assert forall c :: Visible(c) <==> !IsControl(c);
    JoinOfSplit(s, '/');
    var parts := Split(s, '/');
    if SafeComponents(s) && '\\' !in s && forall c :: c in s ==> !IsControl(c) {
      forall i, c | 0 <= i < |parts| && c in parts[i]
        ensures c in s
      {
        InPart(parts, '/', i, c);
      }
      forall i | 0 <= i < |parts|
        ensures SafeComponent(parts[i])
      {
        assert parts[i] in parts && '/' !in parts[i];
      }
    }
    if IsSafePath(s) {
      var ps :| ps != [] && (forall i :: 0 <= i < |ps| ==> SafeComponent(ps[i])) && s == Join(ps, '/');
      SplitOfJoin(ps, '/');
      forall c | c in s
        ensures c != '\\' && !IsControl(c)
      {
        InJoin(ps, '/', c);
        assert Visible('/');
      }
    }
  }

  lemma {:induction false} InPart(parts: seq<string>, sep: char, i: nat, c: char)
    requires i < |parts| && c in parts[i]
    ensures c in Join(parts, sep)
    decreases |parts|
  {
    if i > 0 {
      assert parts[1..][i - 1] == parts[i];
      InPart(parts[1..], sep, i - 1, c);
    }
  }

  lemma SafePathEnds(s: string)
    requires IsSafePath(s)
    ensures s != "" && s[0] != '/' && s[|s| - 1] != '/' && !("/" <= s)
  {
    hide Split, Join;
    PartsOfSafe(s);
    SafeEnds(s);
  }

  lemma SafeEnds(s: string)
    requires SafeComponents(s)
    ensures s != "" && s[0] != '/' && s[|s| - 1] != '/'
  {
    hide Join;
    var parts := Split(s, '/');
    SplitEnds(s, '/');
    assert parts[0] in parts && parts[|parts| - 1] in parts;
  }

  lemma {:induction false} SplitEnds(s: string, sep: char)
    ensures var parts := Split(s, sep);
            && (s == "" || s[0] == sep ==> parts[0] == "")
            && (s == "" || s[|s| - 1] == sep ==> parts[|parts| - 1] == "")
    decreases |s|
  {
    var k := IndexOf(s, sep);
    if k < |s| {
      SplitEnds(s[k + 1..], sep);
    }
  }

  /** Repositories and subpaths are slash-separated safe components within their length; a subpath may be empty. */
  lemma PathsExactly(s: string)
    ensures ValidRepository(s) <==> IsSafePath(s) && |Bytes(s)| <= 512
    ensures ValidSubpath(s) <==> s == "" || (IsSafePath(s) && |Bytes(s)| <= 1024)
  {
    hide IsSafePath, SafeComponents, Bytes;
    PartsOfSafe(s);
    if IsSafePath(s) { SafePathEnds(s); BytesNotEmpty(s); }
    if s != "" && SafeComponents(s) { SafeEnds(s); }
  }

  lemma BytesNotEmpty(s: string)
    ensures s != "" ==> |Bytes(s)| > 0
    ensures |Bytes("")| == 0
  {
    if s != "" {
      assert Scalars(s) != [];
    }
  }

  predicate ValidReference(r: Reference)
  {
    && ValidProvider(r.provider)
    && ValidRepository(r.repository)
    && ValidGitObjectId(r.revision)
    && ValidSubpath(r.subpath)
  }

  /** Lower-case letters and digits, with dots and hyphens inside. */
  predicate IsProviderName(s: string)
  {
    && 0 < |s| <= 64 && (forall i :: 0 <= i < |s| ==> 'a' <= s[i] <= 'z' || IsDigit(s[i]) || s[i] == '.' || s[i] == '-')
    && s[0] != '.' && s[0] != '-' && s[|s| - 1] != '.' && s[|s| - 1] != '-'
  }

  lemma ProviderExactly(s: string)
    ensures ValidProvider(s) <==> IsProviderName(s)
  {
    hide Bytes;
    if s != "" && forall i :: 0 <= i < |s| ==> 'a' <= s[i] <= 'z' || IsDigit(s[i]) || s[i] == '.' || s[i] == '-' {
      AsciiLength(s);
    }
    if ValidProvider(s) {
      assert forall i :: 0 <= i < |s| ==> ProviderByte(s[i], i == 0);
    }
  }

  /** A hash of the length its algorithm gives, and not the all-zero one. */
  predicate IsCommit(id: GitObjectId)
  {
    && |id.bytes| == (match id.algorithm case GitSha1 => 20 case GitSha256 => 32)
    && exists i :: 0 <= i < |id.bytes| && id.bytes[i] != 0
  }

  /** The references there are: every provider name, every safe repository path, every commit, every safe subpath. */
  lemma ReferencesExactly(r: Reference)
    ensures ValidReference(r) <==>
              && IsProviderName(r.provider) && IsCommit(r.revision)
              && IsSafePath(r.repository) && |Bytes(r.repository)| <= 512
              && (r.subpath == "" || (IsSafePath(r.subpath) && |Bytes(r.subpath)| <= 1024))
  {
    hide IsSafePath, Bytes, ValidRepository, ValidSubpath, ValidProvider, IsProviderName;
    ProviderExactly(r.provider);
    PathsExactly(r.repository);
    PathsExactly(r.subpath);
  }

  // ----- Bundles and their record documents -----

  /** `IndexedActionBundle::new`: only an exact commit with a canonical archive descriptor is indexable. */
  function NewBundle(reference: Reference, resolved: GitObjectId, archive: BlobDescriptor): Option<Bundle>
  {
    if || reference.revision != resolved
       || archive.size == 0
       || archive.mediaType != GZIP
       || archive.key != ArchiveKey(archive.digest)
    then None
    else Some(Bundle(reference, resolved, archive))
  }

  /** A value the bundle constructor can have produced. */
  predicate ValidBundle(b: Bundle)
  {
    ValidReference(b.reference) && NewBundle(b.reference, b.resolvedRevision, b.archive) == Some(b)
  }

  datatype Document = Document(
    schemaVersion: nat, provider: string, repository: string, revision: GitObjectId,
    subpath: string, archive: BlobDescriptor)

  function FromBundle(b: Bundle): Document
  {
    Document(SCHEMA_VERSION, b.reference.provider, b.reference.repository,
             b.reference.revision, b.reference.subpath, b.archive)
  }

  function TryIntoBundle(d: Document): Result<Bundle, IndexError>
  {
    if d.schemaVersion != SCHEMA_VERSION then Err(Corrupt)
    else if !ValidProvider(d.provider) || !ValidRepository(d.repository) then Err(Corrupt)
    else if !ValidGitObjectId(d.revision) || !ValidSubpath(d.subpath) then Err(Corrupt)
    else
      var reference := Reference(d.provider, d.repository, d.revision, d.subpath);
      match NewBundle(reference, d.revision, d.archive)
      case Some(b) => Ok(b)
      case None => Err(Corrupt)
  }

  /** The stored document decodes to exactly the published bundle, and nothing else decodes to it. */
  lemma DocumentRoundTrip(b: Bundle, d: Document)
    requires ValidBundle(b)
    ensures TryIntoBundle(d) == Ok(b) <==> d == FromBundle(b)
  {
    if TryIntoBundle(d) == Ok(b) {
      assert b.reference == Reference(d.provider, d.repository, d.revision, d.subpath);
    }
  }

  /** Decoding accepts exactly the documents of valid bundles; everything else is corrupt. */
  lemma DocumentExactly(b: Bundle, d: Document)
    ensures TryIntoBundle(d) == Ok(b) <==> ValidBundle(b) && d == FromBundle(b)
    ensures TryIntoBundle(d).Err? ==> TryIntoBundle(d) == Err(Corrupt)
    ensures ValidBundle(b) <==>
              && ValidReference(b.reference) && b.resolvedRevision == b.reference.revision && b.archive.size > 0
              && b.archive.mediaType == "application/gzip" && b.archive.key == ArchiveKey(b.archive.digest)
  {
    hide ValidProvider, ValidRepository, ValidGitObjectId, ValidSubpath;
    if ValidBundle(b) { DocumentRoundTrip(b, d); }
  }

  // ----- Record keys -----

  /** Big-endian base-256 digits of `n` modulo 256^width. */
  function BigEndian(n: nat, width: nat): (r: seq<byte>)
    ensures |r| == width
  {
    if width == 0 then [] else BigEndian(n / 256, width - 1) + [n % 256]
  }

  function Pow256(width: nat): nat
  {
    if width == 0 then 1 else 256 * Pow256(width - 1)
  }

  lemma {:induction false} BigEndianInjective(m: nat, n: nat, width: nat)
    requires m < Pow256(width) && n < Pow256(width)
    requires BigEndian(m, width) == BigEndian(n, width)
    ensures m == n
  {
    if width > 0 {
      var a, b := BigEndian(m, width), BigEndian(n, width);
      assert a[width - 1] == m % 256 && b[width - 1] == n % 256;
      assert a[..width - 1] == BigEndian(m / 256, width - 1) && b[..width - 1] == BigEndian(n / 256, width - 1);
      BigEndianInjective(m / 256, n / 256, width - 1);
    }
  }

  /** One hashed component: its length as eight big-endian bytes, then its bytes. */
  function Frame(component: seq<byte>): seq<byte>
  {
    BigEndian(|component|, 8) + component
  }

  function Frames(components: seq<seq<byte>>): seq<byte>
  {
    if components == [] then [] else Frame(components[0]) + Frames(components[1..])
  }

  lemma {:induction false} FramesConcat(a: seq<seq<byte>>, b: seq<seq<byte>>)
    ensures Frames(a + b) == Frames(a) + Frames(b)
  {
    hide Frame;
    if a == [] {
      assert a + b == b;
    } else {
      var first, rest := Frame(a[0]), Frames(a[1..]);
      FramesConcat(a[1..], b);
      assert (a + b)[0] == a[0] && (a + b)[1..] == a[1..] + b;
      assert first + (rest + Frames(b)) == first + rest + Frames(b);
    }
  }

  lemma FramesOfFew(c: seq<byte>)
    ensures Frames([]) == [] && Frames([c]) == Frame(c)
  {
    hide Frame;
    assert [c][1..] == [];
    assert Frame(c) + [] == Frame(c);
  }

  lemma FramesSnoc(components: seq<seq<byte>>, i: nat)
    requires i < |components|
    ensures Frames(components[..i + 1]) == Frames(components[..i]) + (BigEndian(|components[i]|, 8) + components[i])
  {
    hide Frames, BigEndian;
    assert components[..i + 1] == components[..i] + [components[i]];
    FramesConcat(components[..i], [components[i]]);
    FramesOfFew(components[i]);
  }

  lemma Pow256Eight()
    ensures Pow256(8) == U64_LIMIT
  {
    assert Pow256(4) == 0x1_0000_0000;
    assert Pow256(8) == 256 * 256 * 256 * 256 * Pow256(4);
  }

  /** Length framing is injective: no two component lists share one hashed byte string. */
  lemma {:induction false} FramesInjective(a: seq<seq<byte>>, b: seq<seq<byte>>)
    requires |a| == |b|
    requires forall i :: 0 <= i < |a| ==> |a[i]| < U64_LIMIT && |b[i]| < U64_LIMIT
    requires Frames(a) == Frames(b)
    ensures a == b
  {
    if a != [] {
      var f := Frames(a);
      assert f[..8] == BigEndian(|a[0]|, 8) && f[..8] == BigEndian(|b[0]|, 8);
      Pow256Eight();
      BigEndianInjective(|a[0]|, |b[0]|, 8);
      var n := 8 + |a[0]|;
      assert f[8..n] == a[0] && f[8..n] == b[0];
      assert f[n..] == Frames(a[1..]) && f[n..] == Frames(b[1..]);
      FramesInjective(a[1..], b[1..]);
      assert a == [a[0]] + a[1..] && b == [b[0]] + b[1..];
    }
  }

  /** The hash domain of the record keys. */
  function KeyDomain(): seq<byte>
  {
    // "automata.action-reference.v1" and a terminating NUL
    [97, 117, 116, 111, 109, 97, 116, 97, 46, 97, 99, 116, 105, 111, 110, 45, 114, 101, 102,
    101, 114, 101, 110, 99, 101, 46, 118, 49, 0]
  }

  function KeyComponents(r: Reference): (c: seq<seq<byte>>)
    ensures |c| == 4
  {
    [Bytes(r.provider), Bytes(r.repository), r.revision.bytes, Bytes(r.subpath)]
  }

  function SharedReferenceKey(r: Reference): BlobKey
  {
    RecordKey(Sha256(KeyDomain() + Frames(KeyComponents(r))))
  }

  /** The hasher loop computes the key of the framed components. */
  method ComputeSharedReferenceKey(reference: Reference) returns (key: BlobKey)
    ensures key == SharedReferenceKey(reference)
  {
    hide KeyComponents, KeyDomain, Frames, BigEndian;
    var components := KeyComponents(reference);
    var hashed := KeyDomain();
    FramesOfFew([]);
    assert components[..0] == [] && hashed + [] == hashed;
    for i := 0 to |components|
      invariant hashed == KeyDomain() + Frames(components[..i])
    {
      var length := BigEndian(|components[i]|, 8);
      FramesSnoc(components, i);
      assert hashed + length + components[i] == KeyDomain() + (Frames(components[..i]) + (length + components[i]));
      hashed := hashed + length;
      hashed := hashed + components[i];
    }
    assert components[..|components|] == components;
    key := RecordKey(Sha256(hashed));
  }

  /** Distinct references own distinct record keys. */
  lemma SharedReferenceKeyInjective(r: Reference, q: Reference)
    requires ValidReference(r) && ValidReference(q)
    requires SharedReferenceKey(r) == SharedReferenceKey(q)
    ensures r == q
  {
    hide Frames, SafeComponents;
    var a, b, d := KeyComponents(r), KeyComponents(q), KeyDomain();
    assert Frames(a) == (d + Frames(a))[|d|..] == (d + Frames(b))[|d|..] == Frames(b);
    FramesInjective(a, b);
    assert a[0] == b[0] && a[1] == b[1] && a[2] == b[2] && a[3] == b[3];
    BytesInjective(r.provider, q.provider);
    BytesInjective(r.repository, q.repository);
    BytesInjective(r.subpath, q.subpath);
  }

  // ----- Key order of the local index -----

  function AlgorithmRank(a: GitObjectAlgorithm): int
  {
    if a == GitSha1 then 0 else 1
  }

  /** The derived `Ord` of a reference compares its fields in declaration order. */
  function OrderFields(r: Reference): (f: seq<seq<int>>)
    ensures |f| == 5
  {
    [Scalars(r.provider), Scalars(r.repository), [AlgorithmRank(r.revision.algorithm)],
     r.revision.bytes, Scalars(r.subpath)]
  }

  predicate FieldsLeq(a: seq<seq<int>>, b: seq<seq<int>>)
    requires |a| == |b|
  {
    a == [] || (LexLeq(a[0], b[0]) && (a[0] == b[0] ==> FieldsLeq(a[1..], b[1..])))
  }

  predicate ReferenceLeq(r: Reference, q: Reference)
  {
    FieldsLeq(OrderFields(r), OrderFields(q))
  }

  /** Dictionary order, field by field: provider, repository, hash algorithm, commit, subpath. */
  ghost predicate ComesFirst(r: Reference, q: Reference)
  {
    if r.provider != q.provider then Precedes(Scalars(r.provider), Scalars(q.provider))
    else if r.repository != q.repository then Precedes(Scalars(r.repository), Scalars(q.repository))
    else if r.revision.algorithm != q.revision.algorithm then r.revision.algorithm == GitSha1
    else if r.revision.bytes != q.revision.bytes then Precedes(r.revision.bytes, q.revision.bytes)
    else Precedes(Scalars(r.subpath), Scalars(q.subpath))
  }

  lemma FieldsCons(a: seq<int>, b: seq<int>, more: seq<seq<int>>, others: seq<seq<int>>)
    requires |more| == |others|
    ensures FieldsLeq([a] + more, [b] + others) <==> LexLeq(a, b) && (a == b ==> FieldsLeq(more, others))
  {
    assert ([a] + more)[1..] == more && ([b] + others)[1..] == others;
  }

  lemma OneField(a: seq<int>, b: seq<int>)
    ensures FieldsLeq([a], [b]) <==> LexLeq(a, b)
  {
    assert [a] == [a] + [] && [b] == [b] + [];
    FieldsCons(a, b, [], []);
  }

  lemma ReferenceOrderExactly(r: Reference, q: Reference)
    ensures ReferenceLeq(r, q) <==> ComesFirst(r, q)
  {
    hide FieldsLeq, LexLeq, Precedes;
    var f, g := OrderFields(r), OrderFields(q);
    assert f == [f[0]] + ([f[1]] + ([f[2]] + ([f[3]] + [f[4]]))) && g == [g[0]] + ([g[1]] + ([g[2]] + ([g[3]] + [g[4]])));
    FieldsCons(f[0], g[0], [f[1]] + ([f[2]] + ([f[3]] + [f[4]])), [g[1]] + ([g[2]] + ([g[3]] + [g[4]])));
    FieldsCons(f[1], g[1], [f[2]] + ([f[3]] + [f[4]]), [g[2]] + ([g[3]] + [g[4]]));
    FieldsCons(f[2], g[2], [f[3]] + [f[4]], [g[3]] + [g[4]]);
    FieldsCons(f[3], g[3], [f[4]], [g[4]]);
    OneField(f[4], g[4]);
    FieldsExactly(r, q);
  }

  lemma FieldsExactly(r: Reference, q: Reference)
    ensures var f, g := OrderFields(r), OrderFields(q);
            && (forall i :: 0 <= i < 5 ==> (LexLeq(f[i], g[i]) <==> Precedes(f[i], g[i])) && (f[i] == g[i] ==> LexLeq(f[i], g[i])))
            && (f[0] == g[0] <==> r.provider == q.provider) && (f[1] == g[1] <==> r.repository == q.repository)
            && (f[2] == g[2] <==> r.revision.algorithm == q.revision.algorithm) && (f[4] == g[4] <==> r.subpath == q.subpath)
            && (f[2] != g[2] ==> (LexLeq(f[2], g[2]) <==> r.revision.algorithm == GitSha1))
  {
    hide Precedes;
    var f, g := OrderFields(r), OrderFields(q);
    forall i | 0 <= i < 5
      ensures (LexLeq(f[i], g[i]) <==> Precedes(f[i], g[i])) && (f[i] == g[i] ==> LexLeq(f[i], g[i]))
    {
      LexLeqExactly(f[i], g[i]);
      LexTotal(f[i], g[i]);
    }
    if f[0] == g[0] { ScalarsInjective(r.provider, q.provider); }
    if f[1] == g[1] { ScalarsInjective(r.repository, q.repository); }
    if f[4] == g[4] { ScalarsInjective(r.subpath, q.subpath); }
    assert f[2] == g[2] <==> f[2][0] == g[2][0];
    assert f[2] == [AlgorithmRank(r.revision.algorithm)] && g[2] == [AlgorithmRank(q.revision.algorithm)];
  }

  lemma {:induction false} FieldsTotal(a: seq<seq<int>>, b: seq<seq<int>>)
    requires |a| == |b|
    ensures FieldsLeq(a, b) || FieldsLeq(b, a)
    ensures FieldsLeq(a, b) && FieldsLeq(b, a) ==> a == b
  {
    if a != [] {
      LexTotal(a[0], b[0]);
      FieldsTotal(a[1..], b[1..]);
      assert a == [a[0]] + a[1..] && b == [b[0]] + b[1..];
    }
  }

  lemma {:induction false} FieldsTransitive(a: seq<seq<int>>, b: seq<seq<int>>, c: seq<seq<int>>)
    requires |a| == |b| == |c|
    requires FieldsLeq(a, b) && FieldsLeq(b, c)
    ensures FieldsLeq(a, c)
  {
    if a != [] {
      LexTransitive(a[0], b[0], c[0]);
      if a[0] == c[0] {
        LexTotal(a[0], b[0]);
        FieldsTransitive(a[1..], b[1..], c[1..]);
      }
    }
  }

  lemma OrderFieldsInjective(r: Reference, q: Reference)
    requires OrderFields(r) == OrderFields(q)
    ensures r == q
  {
    var f, g := OrderFields(r), OrderFields(q);
    assert f[0] == g[0] && f[1] == g[1] && f[2] == g[2] && f[3] == g[3] && f[4] == g[4];
    ScalarsInjective(r.provider, q.provider);
    ScalarsInjective(r.repository, q.repository);
    ScalarsInjective(r.subpath, q.subpath);
    assert f[2][0] == g[2][0];
  }

  lemma ScalarsInjective(a: string, b: string)
    requires Scalars(a) == Scalars(b)
    ensures a == b
  {
    forall i | 0 <= i < |a|
      ensures a[i] == b[i]
    {
      assert Scalars(a)[i] == Scalars(b)[i];
    }
  }

  predicate IsLeast(k: Reference, keys: set<Reference>)
  {
    k in keys && forall o :: o in keys ==> ReferenceLeq(k, o)
  }

  /** The first key of an ordered map is unique. */
  lemma LeastIsUnique(k: Reference, o: Reference, keys: set<Reference>)
    requires IsLeast(k, keys) && IsLeast(o, keys)
    ensures k == o
  {
    FieldsTotal(OrderFields(k), OrderFields(o));
    OrderFieldsInjective(k, o);
  }

  /** `keys().next()` on a non-empty ordered map. */
  method FirstKey(keys: set<Reference>) returns (k: Reference)
    requires keys != {}
    ensures IsLeast(k, keys)
  {
    k :| k in keys;
    FieldsTotal(OrderFields(k), OrderFields(k));
    var rest := keys - {k};
    while rest != {}
      invariant rest <= keys && IsLeast(k, keys - rest)
      decreases rest
    {
      var o :| o in rest;
      FieldsTotal(OrderFields(k), OrderFields(o));
      if !ReferenceLeq(k, o) {
        forall x | x in keys - rest
          ensures ReferenceLeq(o, x)
        {
          FieldsTransitive(OrderFields(o), OrderFields(k), OrderFields(x));
        }
        FieldsTotal(OrderFields(o), OrderFields(o));
        k := o;
      }
      rest := rest - {o};
    }
    assert keys - rest == keys;
  }

  lemma LeastExists(keys: set<Reference>)
    requires keys != {}
    ensures exists k :: IsLeast(k, keys)
  {
    var k :| k in keys;
    if keys == {k} {
      FieldsTotal(OrderFields(k), OrderFields(k));
      assert IsLeast(k, keys);
    } else {
      LeastExists(keys - {k});
      var l :| IsLeast(l, keys - {k});
      FieldsTotal(OrderFields(k), OrderFields(l));
      FieldsTotal(OrderFields(k), OrderFields(k));
      if ReferenceLeq(k, l) {
        forall x | x in keys
          ensures ReferenceLeq(k, x)
        {
          if x != k {
            assert x in keys - {k} && ReferenceLeq(l, x);
            FieldsTransitive(OrderFields(k), OrderFields(l), OrderFields(x));
          }
        }
        assert IsLeast(k, keys);
      } else {
        assert IsLeast(l, keys);
      }
    }
  }

  ghost function Least(keys: set<Reference>): (k: Reference)
    requires keys != {}
    ensures IsLeast(k, keys)
  {
    LeastExists(keys);
    var k :| IsLeast(k, keys);
    k
  }

  // ----- The bounded local index -----

  type Entries = map<Reference, Bundle>

  /** What a full index keeps when a new key arrives: everything but its least key. */
  ghost function Evicted(entries: Entries, maximum: nat): (kept: Entries)
    requires maximum > 0
    ensures forall r :: r in kept ==> r in entries && kept[r] == entries[r]
    ensures |entries| <= maximum ==> |kept| < maximum
  {
    if |entries| == maximum then
      assert entries.Keys != {} by { assert |entries.Keys| == |entries|; }
      var least := Least(entries.Keys);
      var kept := entries - {least};
      assert kept.Keys == entries.Keys - {least};
      assert |kept.Keys| == |kept|;
      kept
    else entries
  }

  ghost function LocalPut(entries: Entries, maximum: nat, bundle: Bundle): (Entries, Result<PutOutcome, IndexError>)
    requires maximum > 0
  {
    if bundle.reference in entries then
      if entries[bundle.reference] == bundle then (entries, Ok(AlreadyPresent)) else (entries, Err(Conflict))
    else
      (Evicted(entries, maximum)[bundle.reference := bundle], Ok(Created))
  }

  class MemoryActionReferenceIndex {
    const maximumEntries: nat
    var entries: Entries

    ghost predicate Valid()
      reads this
    {
      && 0 < maximumEntries && |entries| <= maximumEntries
      && forall r :: r in entries ==> entries[r].reference == r
    }

    constructor (maximum: nat)
      requires maximum > 0
      ensures Valid() && maximumEntries == maximum && entries == map[]
    {
      maximumEntries := maximum;
      entries := map[];
    }

    /** `MemoryActionReferenceIndex::new`: a zero bound is refused. */
    static method New(maximum: nat) returns (r: Result<MemoryActionReferenceIndex, IndexError>)
      ensures maximum == 0 ==> r == Err(ResourceExhausted)
      ensures maximum > 0 ==> r.Ok? && fresh(r.value) && r.value.Valid()
                              && r.value.maximumEntries == maximum && r.value.entries == map[]
    {
      if maximum == 0 {
        return Err(ResourceExhausted);
      }
      var index := new MemoryActionReferenceIndex(maximum);
      r := Ok(index);
    }

    method Get(reference: Reference) returns (r: Option<Bundle>)
      requires Valid()
      ensures r.Some? <==> reference in entries
      ensures r.Some? ==> r.value == entries[reference] && r.value.reference == reference
    {
      r := if reference in entries then Some(entries[reference]) else None;
    }

    /** Never overwrites a present mapping, and never grows past the bound. */
    method PutIfAbsent(bundle: Bundle) returns (r: Result<PutOutcome, IndexError>)
      requires Valid()
      modifies this`entries
      ensures Valid()
      ensures (entries, r) == LocalPut(old(entries), maximumEntries, bundle)
    {
      if bundle.reference in entries {
        return if entries[bundle.reference] == bundle then Ok(AlreadyPresent) else Err(Conflict);
      }
      ghost var before := entries;
      if |entries| == maximumEntries {
        assert |entries.Keys| == |entries|;
        var oldest := FirstKey(entries.Keys);
        LeastIsUnique(oldest, Least(entries.Keys), entries.Keys);
        entries := entries - {oldest};
      }
      assert entries == Evicted(before, maximumEntries);
      entries := entries[bundle.reference := bundle];
      r := Ok(Created);
    }
  }

  /** A put forgets a mapping exactly when it brings a new reference to a full index whose least key is that one. */
  lemma LocalPutForgets(entries: Entries, maximum: nat, bundle: Bundle, q: Reference)
    requires maximum > 0 && q in entries
    ensures q !in LocalPut(entries, maximum, bundle).0 <==>
              bundle.reference !in entries && |entries| == maximum && IsLeast(q, entries.Keys)
  {
    if bundle.reference !in entries && |entries| == maximum {
      assert |entries.Keys| == |entries|;
      if IsLeast(q, entries.Keys) { LeastIsUnique(q, Least(entries.Keys), entries.Keys); }
    }
  }

  lemma OneMoreKey(entries: Entries, b: Bundle)
    ensures |entries[b.reference := b]| <= |entries| + 1
  {
    assert entries[b.reference := b].Keys == entries.Keys + {b.reference};
  }

  /** A local put keeps the bound and changes nothing it keeps. */
  lemma LocalPutKeeps(entries: Entries, maximum: nat, bundle: Bundle)
    requires maximum > 0 && |entries| <= maximum
    ensures var after := LocalPut(entries, maximum, bundle).0;
            && |after| <= maximum
            && (forall q :: q in after ==>
                  (q == bundle.reference && after[q] == bundle) || (q in entries && after[q] == entries[q]))
  {
    hide Evicted;
    var kept := Evicted(entries, maximum);
    OneMoreKey(kept, bundle);
  }

  /** Besides, it reports a conflict exactly when a different mapping is present, and drops at most one mapping: the
      least key of a full index that receives a new reference. */
  lemma LocalPutProperties(entries: Entries, maximum: nat, bundle: Bundle)
    requires maximum > 0 && |entries| <= maximum
    ensures var (after, r) := LocalPut(entries, maximum, bundle);
            && |after| <= maximum
            && (r == Err(Conflict) <==> bundle.reference in entries && entries[bundle.reference] != bundle)
            && (r.Ok? ==> bundle.reference in after && after[bundle.reference] == bundle)
            && (forall q :: q in after ==>
                  (q == bundle.reference && after[q] == bundle) || (q in entries && after[q] == entries[q]))
            && (forall q :: q in entries ==>
                  (q !in after <==> bundle.reference !in entries && |entries| == maximum && IsLeast(q, entries.Keys)))
  {
    hide IsLeast, Evicted;
    LocalPutKeeps(entries, maximum, bundle);
    var after := LocalPut(entries, maximum, bundle).0;
    forall q | q in entries
      ensures q !in after <==> bundle.reference !in entries && |entries| == maximum && IsLeast(q, entries.Keys)
    {
      LocalPutForgets(entries, maximum, bundle, q);
    }
  }

  // ----- What the local index remembers by itself -----

  /** After a put, a bundle that contradicts an earlier mapping is accepted exactly when that put forgot the mapping,
      and refused otherwise. */
  lemma ContradictionAcceptedExactly(entries: Entries, maximum: nat, bundle: Bundle, contradiction: Bundle)
    requires maximum > 0 && contradiction.reference in entries && contradiction != entries[contradiction.reference]
    ensures var outcome := LocalPut(LocalPut(entries, maximum, bundle).0, maximum, contradiction).1;
            && (outcome == Ok(Created) <==>
                  bundle.reference !in entries && |entries| == maximum && IsLeast(contradiction.reference, entries.Keys))
            && (outcome == Ok(Created) || outcome == Err(Conflict))
  {
    hide IsLeast;
    LocalPutForgets(entries, maximum, bundle, contradiction.reference);
  }

  ghost function PutAll(entries: Entries, maximum: nat, bundles: seq<Bundle>): Entries
    requires maximum > 0
    decreases |bundles|
  {
    if bundles == [] then entries
    else LocalPut(PutAll(entries, maximum, bundles[..|bundles| - 1]), maximum, bundles[|bundles| - 1]).0
  }

  lemma PutAllUnfolds(entries: Entries, maximum: nat, bundles: seq<Bundle>)
    requires maximum > 0
    ensures bundles == [] ==> PutAll(entries, maximum, bundles) == entries
    ensures bundles != [] ==>
              PutAll(entries, maximum, bundles)
              == LocalPut(PutAll(entries, maximum, bundles[..|bundles| - 1]), maximum, bundles[|bundles| - 1]).0
  {
    hide LocalPut;
  }

  function References(bundles: seq<Bundle>): set<Reference>
  {
    set i | 0 <= i < |bundles| :: bundles[i].reference
  }

  lemma ReferencesSnoc(bundles: seq<Bundle>, b: Bundle)
    ensures References(bundles + [b]) == References(bundles) + {b.reference}
  {
    var all := bundles + [b];
    assert (forall i :: 0 <= i < |bundles| ==> all[i] == bundles[i]) && all[|bundles|] == b;
  }

  /** The index never holds a reference that was not put, nor more than its bound. */
  lemma {:induction false} PutAllBounded(entries: Entries, maximum: nat, bundles: seq<Bundle>)
    requires maximum > 0 && |entries| <= maximum
    ensures |PutAll(entries, maximum, bundles)| <= maximum
    ensures PutAll(entries, maximum, bundles).Keys <= entries.Keys + References(bundles)
    decreases |bundles|
  {
    hide LocalPut, IsLeast, References;
    if bundles != [] {
      var front, last := bundles[..|bundles| - 1], bundles[|bundles| - 1];
      assert bundles == front + [last];
      PutAllBounded(entries, maximum, front);
      ReferencesSnoc(front, last);
      LocalPutKeeps(PutAll(entries, maximum, front), maximum, last);
    }
  }

  lemma SmallerSet(a: set<Reference>, b: set<Reference>)
    requires a <= b
    ensures |a| <= |b|
    ensures |a| == |b| ==> a == b
  {
    assert b == a + (b - a);
    assert |b| == |a| + |b - a|;
  }

  lemma PutWithRoom(entries: Entries, maximum: nat, b: Bundle)
    requires maximum > 0 && |entries| <= maximum && (b.reference in entries || |entries| < maximum)
    ensures var after := LocalPut(entries, maximum, b).0;
            after.Keys == entries.Keys + {b.reference} && forall q :: q in entries ==> after[q] == entries[q]
  {
  }

  lemma RoomFor(entries: Entries, all: set<Reference>, maximum: nat, r: Reference)
    requires entries.Keys <= all && r in all && |all| <= maximum
    ensures |entries| <= maximum && (r in entries || |entries| < maximum)
  {
    SmallerSet(entries.Keys, all);
    assert |entries.Keys| == |entries|;
  }

  /** A table still holds all it held, unchanged, and exactly these references besides. */
  predicate Remembers(entries: Entries, after: Entries, more: set<Reference>)
  {
    after.Keys == entries.Keys + more && forall q :: q in entries ==> after[q] == entries[q]
  }

  lemma RemembersMore(entries: Entries, before: Entries, more: set<Reference>, maximum: nat, b: Bundle)
    requires maximum > 0 && Remembers(entries, before, more) && |entries.Keys + (more + {b.reference})| <= maximum
    ensures Remembers(entries, LocalPut(before, maximum, b).0, more + {b.reference})
  {
    hide LocalPut;
    var all := entries.Keys + (more + {b.reference});
    assert before.Keys + {b.reference} == all;
    RoomFor(before, all, maximum, b.reference);
    PutWithRoom(before, maximum, b);
  }

  /** While the distinct references fit the bound nothing is forgotten and no mapping changes. */
  lemma {:induction false} PutAllRemembers(entries: Entries, maximum: nat, bundles: seq<Bundle>)
    requires maximum > 0 && |entries.Keys + References(bundles)| <= maximum
    ensures Remembers(entries, PutAll(entries, maximum, bundles), References(bundles))
    decreases |bundles|
  {
    hide LocalPut, References, PutAll, Remembers;
    PutAllUnfolds(entries, maximum, bundles);
    if bundles == [] {
      NoReferences();
      RemembersItself(entries);
    } else {
      var front, last := bundles[..|bundles| - 1], bundles[|bundles| - 1];
      assert bundles == front + [last];
      ReferencesSnoc(front, last);
      SmallerSet(entries.Keys + References(front), entries.Keys + References(bundles));
      PutAllRemembers(entries, maximum, front);
      RemembersMore(entries, PutAll(entries, maximum, front), References(front), maximum, last);
    }
  }

  lemma RemembersItself(entries: Entries)
    ensures Remembers(entries, entries, {})
  {
  }

  lemma NoReferences()
    ensures References([]) == {}
  {
  }

  /** By itself, through any puts at any bound, the index remembers every reference it held or was given exactly when
      those references number at most the bound. */
  lemma IndexRemembersExactly(entries: Entries, maximum: nat, bundles: seq<Bundle>)
    requires maximum > 0 && |entries| <= maximum
    ensures PutAll(entries, maximum, bundles).Keys == entries.Keys + References(bundles) <==>
              |entries.Keys + References(bundles)| <= maximum
  {
    hide PutAll, References;
    PutAllBounded(entries, maximum, bundles);
    assert |PutAll(entries, maximum, bundles).Keys| == |PutAll(entries, maximum, bundles)|;
    if |entries.Keys + References(bundles)| <= maximum {
      PutAllRemembers(entries, maximum, bundles);
    }
  }

  /** Past that number some reference is forgotten, and any bundle for it is then accepted as new. */
  lemma OverfullIndexForgets(entries: Entries, maximum: nat, bundles: seq<Bundle>) returns (q: Reference)
    requires maximum > 0 && |entries| <= maximum && |entries.Keys + References(bundles)| > maximum
    ensures q in entries.Keys + References(bundles)
    ensures forall b: Bundle :: b.reference == q ==> LocalPut(PutAll(entries, maximum, bundles), maximum, b).1 == Ok(Created)
  {
    hide PutAll, References;
    IndexRemembersExactly(entries, maximum, bundles);
    PutAllBounded(entries, maximum, bundles);
    q :| q in entries.Keys + References(bundles) && q !in PutAll(entries, maximum, bundles);
  }
}
