/** The global PAX header of an archive (`validate_global_pax` in
    crates/automata-ci-action/src/archive.rs), as "pax Extended Header" of the pax
    utility in POSIX.1-2017 defines its records. Text is one `char` per byte. */
module PaxRecords {

  import opened Text

  datatype PaxError = Malformed | UnsafeField

  // ----- Canonical decimals -----

  function DigitChar(d: nat): char
    requires d < 10
  {
    ('0' as int + d) as char
  }

  function Decimal(n: nat): (s: string)
    ensures s != ""
    ensures forall i :: 0 <= i < |s| ==> IsDigit(s[i])
    ensures n > 0 ==> s[0] != '0'
  {
    if n < 10 then [DigitChar(n)] else Decimal(n / 10) + [DigitChar(n % 10)]
  }

  /** What the parser accepts as a length: digits without a redundant leading zero. */
  predicate IsDecimal(s: string)
  {
    && s != "" && (|s| > 1 ==> s[0] != '0')
    && forall i :: 0 <= i < |s| ==> IsDigit(s[i])
  }

  lemma {:induction false} ParseOfDecimal(n: nat)
    ensures IsDecimal(Decimal(n)) && ParseDecimal(Decimal(n)) == n
  {
    var s := Decimal(n);
    if n >= 10 {
      ParseOfDecimal(n / 10);
      assert s[..|s| - 1] == Decimal(n / 10);
    } else {
      assert s[..0] == "";
    }
  }

  lemma {:induction false} PositiveDecimal(s: string)
    requires IsDecimal(s) && s[0] != '0'
    ensures ParseDecimal(s) > 0
  {
    if |s| > 1 { PositiveDecimal(s[..|s| - 1]); }
  }

  lemma {:induction false} DecimalOfParse(s: string)
    requires IsDecimal(s)
    ensures Decimal(ParseDecimal(s)) == s
  {
    var n, front := ParseDecimal(s), s[..|s| - 1];
    assert s == front + [s[|s| - 1]];
    if |s| > 1 {
      DecimalOfParse(front);
      PositiveDecimal(front);
      assert n / 10 == ParseDecimal(front) && n % 10 == DigitValue(s[|s| - 1]);
    }
  }

  // ----- Records -----

  /** One record as written: its stated length, keyword and value. */
  datatype Record = Record(length: nat, key: string, value: string)

  function Body(key: string, value: string): string
  {
    key + (['='] + (value + ['\n']))
  }

  /** `<length> <keyword>=<value>\n`. */
  function Written(r: Record): string
  {
    Decimal(r.length) + ([' '] + Body(r.key, r.value))
  }

  /** The stated length is the length of the whole record, its own digits included. */
  predicate Consistent(r: Record)
  {
    |Written(r)| == r.length
  }

  predicate KnownKey(key: string)
  {
    key in ["atime", "comment", "ctime", "gid", "gname", "mtime", "uid", "uname"]
  }

  predicate CleanValue(value: string)
  {
    forall i :: 0 <= i < |value| ==> value[i] as int != 0 && value[i] != '\n' && value[i] != '\r'
  }

  predicate ValidRecord(r: Record)
  {
    Consistent(r) && KnownKey(r.key) && CleanValue(r.value)
  }

  /** Valid records with pairwise distinct keywords, none of them in `used`. */
  predicate ValidRecords(rs: seq<Record>, used: set<string>)
  {
    && (forall i :: 0 <= i < |rs| ==> ValidRecord(rs[i]) && rs[i].key !in used)
    && (forall i, j :: 0 <= i < j < |rs| ==> rs[i].key != rs[j].key)
  }

  function Print(rs: seq<Record>): string
  {
    if rs == [] then "" else Written(rs[0]) + Print(rs[1..])
  }

  // ----- The parser -----

  /** The first record of a non-empty remainder. A length beyond the word size is refused here by the bounds check on
      the record's end, with the same error. */
  function ParseRecord(s: string): Result<Record, PaxError>
  {
    var space := IndexOf(s, ' ');
    if space == |s| || !IsDecimal(s[..space]) then Err(Malformed) else
      var length := ParseDecimal(s[..space]);
      if !(space + 1 <= length <= |s|) then Err(Malformed)
      else ParseBody(length, s[space + 1..length])
  }

  function ParseBody(length: nat, record: string): Result<Record, PaxError>
  {
    if record == "" || record[|record| - 1] != '\n' then Err(Malformed) else
      var line := record[..|record| - 1];
      var separator := IndexOf(line, '=');
      if separator == |line| then Err(Malformed)
      else
        var key, value := line[..separator], line[separator + 1..];
        if KnownKey(key) && CleanValue(value) then Ok(Record(length, key, value)) else Err(UnsafeField)
  }

  function Cons(r: Record, rest: Result<seq<Record>, PaxError>): Result<seq<Record>, PaxError>
  {
    if rest.Ok? then Ok([r] + rest.value) else rest
  }

  lemma ParseBodySound(length: nat, record: string)
    requires ParseBody(length, record).Ok?
    ensures var r := ParseBody(length, record).value;
            r.length == length && record == Body(r.key, r.value) && KnownKey(r.key) && CleanValue(r.value)
  {
    hide KnownKey, CleanValue;
    var line := record[..|record| - 1];
    var k := IndexOf(line, '=');
    assert line == line[..k] + (['='] + line[k + 1..]);
    assert record == line + ['\n'];
  }

  lemma KnownKeyHasNoSeparator(key: string)
    requires KnownKey(key)
    ensures '=' !in key && key != ""
  {
  }

  lemma ParseBodyComplete(length: nat, key: string, value: string)
    requires KnownKey(key) && CleanValue(value)
    ensures ParseBody(length, Body(key, value)) == Ok(Record(length, key, value))
  {
    hide KnownKey;
    var record := Body(key, value);
    var line := record[..|record| - 1];
    assert line == key + ['='] + value;
    KnownKeyHasNoSeparator(key);
    IndexOfConcat(key, '=', value);
    assert line[..|key|] == key && line[|key| + 1..] == value;
  }

  /** A parsed head is a valid record and is exactly what the text starts with. */
  lemma ParseRecordSound(s: string)
    requires ParseRecord(s).Ok?
    ensures var r := ParseRecord(s).value;
            && ValidRecord(r) && 0 < r.length <= |s| && s[..r.length] == Written(r)
  {
    hide ParseBody, KnownKey;
    var r := ParseRecord(s).value;
    var space := IndexOf(s, ' ');
    DecimalOfParse(s[..space]);
    ParseBodySound(ParseDecimal(s[..space]), s[space + 1..ParseDecimal(s[..space])]);
    assert s[..r.length] == s[..space] + ([' '] + s[space + 1..r.length]);
  }

  /** Every text that starts with a valid record parses to it. */
  lemma ParseRecordComplete(r: Record, rest: string)
    requires ValidRecord(r)
    ensures ParseRecord(Written(r) + rest) == Ok(r)
  {
    hide ParseBody, KnownKey;
    var s, digits := Written(r) + rest, Decimal(r.length);
    ParseOfDecimal(r.length);
    assert ' ' !in digits;
    assert s == digits + [' '] + (Body(r.key, r.value) + rest);
    IndexOfConcat(digits, ' ', Body(r.key, r.value) + rest);
    assert s[..|digits|] == digits;
    assert s[|digits| + 1..r.length] == Body(r.key, r.value);
    ParseBodyComplete(r.length, r.key, r.value);
  }

  /** The whole header, with the keywords already seen. */
  function Parse(s: string, used: set<string>): Result<seq<Record>, PaxError>
    decreases |s|
  {
    if s == "" then Ok([]) else
      match ParseRecord(s)
      case Err(e) => Err(e)
      case Ok(r) =>
        ParseRecordSound(s);
        if r.key in used then Err(UnsafeField)
        else Cons(r, Parse(s[r.length..], used + {r.key}))
  }

  lemma {:induction false} ParseSound(s: string, used: set<string>)
    requires Parse(s, used).Ok?
    ensures ValidRecords(Parse(s, used).value, used) && Print(Parse(s, used).value) == s
    decreases |s|
  {
    hide ParseRecord, ValidRecord, Written;
    if s != "" {
      var r := ParseRecord(s).value;
      ParseRecordSound(s);
      ParseSound(s[r.length..], used + {r.key});
      var rs := Parse(s[r.length..], used + {r.key}).value;
      assert Parse(s, used) == Ok([r] + rs) && ([r] + rs)[1..] == rs;
      assert s == s[..r.length] + s[r.length..];
      forall i | 0 <= i < |rs|
        ensures rs[i].key != r.key && rs[i].key !in used
      {
        assert rs[i].key !in used + {r.key};
      }
    }
  }

  lemma WrittenLength(r: Record)
    requires ValidRecord(r)
    ensures |Written(r)| == r.length > 0
  {
  }

  lemma ValidRest(rs: seq<Record>, used: set<string>)
    requires ValidRecords(rs, used) && rs != []
    ensures ValidRecord(rs[0]) && rs[0].key !in used && ValidRecords(rs[1..], used + {rs[0].key})
  {
    hide ValidRecord;
    assert forall i :: 0 <= i < |rs[1..]| ==> rs[1..][i] == rs[i + 1];
  }

  lemma {:induction false} ParseComplete(rs: seq<Record>, used: set<string>)
    requires ValidRecords(rs, used)
    ensures Parse(Print(rs), used) == Ok(rs)
    decreases |rs|
  {
    hide ParseRecord, ValidRecord, Written, ValidRecords;
    if rs != [] {
      var r, s := rs[0], Print(rs);
      ValidRest(rs, used);
      WrittenLength(r);
      ParseRecordComplete(r, Print(rs[1..]));
      assert s[r.length..] == Print(rs[1..]);
      ParseComplete(rs[1..], used + {r.key});
      assert rs == [r] + rs[1..];
    }
  }

  /** The header parser accepts exactly the printed lists of valid records. */
  lemma AcceptsExactlyPrintedRecords(s: string, rs: seq<Record>)
    ensures Parse(s, {}) == Ok(rs) <==> ValidRecords(rs, {}) && Print(rs) == s
  {
    if Parse(s, {}) == Ok(rs) { ParseSound(s, {}); }
    if ValidRecords(rs, {}) && Print(rs) == s { ParseComplete(rs, {}); }
  }

  /** The same, with everything written out: records that state their own length, distinct keywords of the eight
      allowed, and values without NUL, line feed or carriage return. */
  lemma AcceptsExactly(s: string, rs: seq<Record>)
    ensures Parse(s, {}) == Ok(rs) <==>
              && Print(rs) == s
              && (forall i, j :: 0 <= i < j < |rs| ==> rs[i].key != rs[j].key)
              && forall i :: 0 <= i < |rs| ==>
                   && rs[i].length == |Written(rs[i])|
                   && rs[i].key in {"atime", "comment", "ctime", "gid", "gname", "mtime", "uid", "uname"}
                   && 0 as char !in rs[i].value && '\n' !in rs[i].value && '\r' !in rs[i].value
  {
    hide Parse, Print, Written;
    AcceptsExactlyPrintedRecords(s, rs);
    forall i | 0 <= i < |rs|
      ensures CleanValue(rs[i].value) <==> 0 as char !in rs[i].value && '\n' !in rs[i].value && '\r' !in rs[i].value
    {
    }
  }

  /** A header denotes one record list only. */
  lemma RecordsAreUnique(a: seq<Record>, b: seq<Record>)
    requires ValidRecords(a, {}) && ValidRecords(b, {}) && Print(a) == Print(b)
    ensures a == b
  {
    ParseComplete(a, {});
    ParseComplete(b, {});
  }

  /** Parsing after a parsed prefix. */
  function Resume(records: seq<Record>, rest: Result<seq<Record>, PaxError>): Result<seq<Record>, PaxError>
  {
    if rest.Ok? then Ok(records + rest.value) else rest
  }

  /** The scanning loop of `validate_global_pax`. */
  method ValidateGlobalPax(bytes: string) returns (r: Result<seq<Record>, PaxError>)
    ensures r.Ok? ==> ValidRecords(r.value, {}) && Print(r.value) == bytes
    ensures r.Err? ==> forall rs :: ValidRecords(rs, {}) ==> Print(rs) != bytes
    ensures r == Parse(bytes, {})
  {
    hide ParseRecord, ValidRecord, Written;
    var offset, keys, records := 0, {}, [];
    ghost var whole := Parse(bytes, {});
    assert bytes[0..] == bytes && (whole.Ok? ==> [] + whole.value == whole.value);
    while offset < |bytes|
      invariant offset <= |bytes|
      invariant whole == Resume(records, Parse(bytes[offset..], keys))
    {
      var remainder := bytes[offset..];
      var parsed := ParseRecord(remainder);
      if parsed.Err? || parsed.value.key in keys {
        r := if parsed.Err? then Err(parsed.error) else Err(UnsafeField);
        forall rs | ValidRecords(rs, {})
          ensures Print(rs) != bytes
        {
          ParseComplete(rs, {});
        }
        return;
      }
      ParseRecordSound(remainder);
      ghost var rest := Parse(remainder[parsed.value.length..], keys + {parsed.value.key});
      assert Resume(records, Cons(parsed.value, rest)) == Resume(records + [parsed.value], rest) by {
        if rest.Ok? {
          assert records + ([parsed.value] + rest.value) == (records + [parsed.value]) + rest.value;
        }
      }
      assert remainder[parsed.value.length..] == bytes[offset + parsed.value.length..];
      keys := keys + {parsed.value.key};
      records := records + [parsed.value];
      offset := offset + parsed.value.length;
    }
    assert bytes[offset..] == "" && records + [] == records;
    ParseSound(bytes, {});
    r := Ok(records);
  }

  // ----- Refused headers -----

  /** The text starts with a record of its stated length, whatever its keyword and value. */
  predicate HeadIs(s: string, r: Record)
  {
    '=' !in r.key && |Written(r)| == r.length && Written(r) <= s
  }

  lemma BodyParses(length: nat, key: string, value: string)
    requires '=' !in key
    ensures ParseBody(length, Body(key, value)) ==
              if KnownKey(key) && CleanValue(value) then Ok(Record(length, key, value)) else Err(UnsafeField)
  {
    hide KnownKey, CleanValue;
    var record := Body(key, value);
    var line := record[..|record| - 1];
    assert line == key + ['='] + value;
    IndexOfConcat(key, '=', value);
    assert line[..|key|] == key && line[|key| + 1..] == value;
  }

  lemma HeadParses(s: string, r: Record)
    requires HeadIs(s, r)
    ensures ParseRecord(s) == if KnownKey(r.key) && CleanValue(r.value) then Ok(r) else Err(UnsafeField)
  {
    hide KnownKey, CleanValue, ParseBody, Body, Decimal, IndexOf;
    var digits, body := Decimal(r.length), Body(r.key, r.value);
    var rest := s[r.length..];
    assert s == digits + [' '] + (body + rest);
    ParseOfDecimal(r.length);
    assert ' ' !in digits;
    IndexOfConcat(digits, ' ', body + rest);
    assert s[..|digits|] == digits && s[|digits| + 1..r.length] == body;
    BodyParses(r.length, r.key, r.value);
  }

  lemma BodyHasFields(length: nat, record: string) returns (key: string, value: string)
    requires ParseBody(length, record) != Err(Malformed)
    ensures '=' !in key && record == Body(key, value)
  {
    hide KnownKey, CleanValue;
    var line := record[..|record| - 1];
    var k := IndexOf(line, '=');
    key, value := line[..k], line[k + 1..];
    assert record == line + ['\n'] && line == key + (['='] + value);
  }

  lemma RecordHasHead(s: string) returns (r: Record)
    requires ParseRecord(s) != Err(Malformed)
    ensures HeadIs(s, r)
  {
    hide ParseBody, Body, Decimal, ParseDecimal;
    var space := IndexOf(s, ' ');
    var length := ParseDecimal(s[..space]);
    var key, value := BodyHasFields(length, s[space + 1..length]);
    r := Record(length, key, value);
    DecimalOfParse(s[..space]);
    assert s[..length] == s[..space] + ([' '] + s[space + 1..length]);
    assert s[..length] == Written(r);
  }

  /** Why the text after the first records is refused: it does not start with a record, or with one that is unknown,
      unclean or repeated. */
  ghost predicate RefusedHead(rest: string, used: set<string>, e: PaxError)
  {
    match e
    case Malformed => rest != "" && forall r :: !HeadIs(rest, r)
    case UnsafeField => exists r :: HeadIs(rest, r) && !(KnownKey(r.key) && CleanValue(r.value) && r.key !in used)
  }

  function Used(used: set<string>, rs: seq<Record>): set<string>
  {
    used + set r | r in rs :: r.key
  }

  ghost predicate RefusedAfter(s: string, used: set<string>, e: PaxError, rs: seq<Record>)
  {
    ValidRecords(rs, used) && Print(rs) <= s && RefusedHead(s[|Print(rs)|..], Used(used, rs), e)
  }

  lemma HeadRefused(s: string, used: set<string>)
    requires s != ""
    ensures forall e :: RefusedHead(s, used, e) <==>
              ParseRecord(s) == Err(e) || (e == UnsafeField && ParseRecord(s).Ok? && ParseRecord(s).value.key in used)
  {
    hide ParseRecord, HeadIs, KnownKey, CleanValue;
    forall r | HeadIs(s, r)
      ensures ParseRecord(s) == if KnownKey(r.key) && CleanValue(r.value) then Ok(r) else Err(UnsafeField)
    {
      HeadParses(s, r);
    }
    if ParseRecord(s) != Err(Malformed) {
      var r := RecordHasHead(s);
    }
  }

  lemma {:induction false} RefusalHasCause(s: string, used: set<string>) returns (rs: seq<Record>)
    requires Parse(s, used).Err?
    ensures RefusedAfter(s, used, Parse(s, used).error, rs)
    decreases |s|
  {
    hide ParseRecord, ValidRecord, Written, RefusedHead;
    var e := Parse(s, used).error;
    HeadRefused(s, used);
    if RefusedHead(s, used, e) {
      rs := [];
      assert s[0..] == s && Used(used, []) == used;
    } else {
      ParseRecordSound(s);
      var r := ParseRecord(s).value;
      var rest := s[r.length..];
      var more := RefusalHasCause(rest, used + {r.key});
      rs := [r] + more;
      assert rs[1..] == more && s == Written(r) + rest;
      WrittenLength(r);
      assert Print(rs) == Written(r) + Print(more);
      assert s[|Print(rs)|..] == rest[|Print(more)|..];
      assert Used(used, rs) == Used(used + {r.key}, more);
    }
  }

  lemma {:induction false} CauseIsRefused(s: string, used: set<string>, e: PaxError, rs: seq<Record>)
    requires RefusedAfter(s, used, e, rs)
    ensures Parse(s, used) == Err(e)
    decreases |rs|
  {
    hide ParseRecord, ValidRecord, Written, RefusedHead;
    if rs == [] {
      assert s[0..] == s && Used(used, []) == used;
      NothingRefused(used, e);
      HeadRefused(s, used);
    } else {
      var r, more := rs[0], rs[1..];
      ValidRest(rs, used);
      WrittenLength(r);
      var rest := s[r.length..];
      assert s == Written(r) + rest by { assert Written(r) <= Print(rs) <= s; }
      ParseRecordComplete(r, rest);
      assert Print(more) <= rest && s[|Print(rs)|..] == rest[|Print(more)|..];
      assert Used(used, rs) == Used(used + {r.key}, more);
      CauseIsRefused(rest, used + {r.key}, e, more);
    }
  }

  lemma NothingRefused(used: set<string>, e: PaxError)
    ensures !RefusedHead("", used, e)
  {
    forall r
      ensures !HeadIs("", r)
    {
      assert |Written(r)| > 0;
    }
  }

  /** A header is refused with an error exactly when, after some valid records, the rest cannot be taken for that
      reason. */
  lemma RefusesExactly(s: string, e: PaxError)
    ensures Parse(s, {}) == Err(e) <==> exists rs :: RefusedAfter(s, {}, e, rs)
  {
    hide Parse, RefusedAfter;
    if Parse(s, {}) == Err(e) {
      var rs := RefusalHasCause(s, {});
    }
    if rs :| RefusedAfter(s, {}, e, rs) {
      CauseIsRefused(s, {}, e, rs);
    }
  }

  // ----- Lengths that count their own digits -----

  function Pow10(d: nat): nat
  {
    if d == 0 then 1 else 10 * Pow10(d - 1)
  }

  lemma {:induction false} DecimalLength(n: nat)
    ensures n < Pow10(|Decimal(n)|) && (n > 0 ==> Pow10(|Decimal(n)| - 1) <= n)
  {
    if n >= 10 {
      DecimalLength(n / 10);
      assert Pow10(|Decimal(n)|) == 10 * Pow10(|Decimal(n / 10)|);
      assert Pow10(|Decimal(n)| - 1) == 10 * Pow10(|Decimal(n / 10)| - 1);
    } else {
      assert Pow10(1) == 10 && Pow10(0) == 1;
    }
  }

  lemma {:induction false} Pow10Monotone(a: nat, b: nat)
    requires a <= b
    ensures Pow10(a) <= Pow10(b)
    decreases b - a
  {
    if a < b { Pow10Monotone(a + 1, b); }
  }

  lemma {:induction false} Pow10Grows(d: nat)
    ensures d + 1 <= Pow10(d)
  {
    if d > 0 { Pow10Grows(d - 1); }
  }

  lemma DecimalLengthIs(n: nat, d: nat)
    requires d > 0 && Pow10(d - 1) <= n < Pow10(d)
    ensures |Decimal(n)| == d
  {
    DecimalLength(n);
    var e := |Decimal(n)|;
    if e < d { Pow10Monotone(e, d - 1); }
    if d < e { Pow10Monotone(d, e - 1); }
  }

  /** The length the writer states: the body's length plus the digits needed to say so. */
  function StatedLength(body: nat): nat
  {
    var d := |Decimal(body)|;
    if |Decimal(body + d)| == d then body + d else body + d + 1
  }

  /** A self-counting length always exists, so every keyword and value can be written. */
  lemma StatedLengthIsConsistent(key: string, value: string)
    ensures Consistent(Record(StatedLength(1 + |Body(key, value)|), key, value))
  {
    hide Decimal, Body;
    var body := 1 + |Body(key, value)|;
    var d := |Decimal(body)|;
    DecimalLength(body);
    Pow10Grows(d);
    if |Decimal(body + d)| != d {
      DecimalLength(body + d);
      if body + d < Pow10(d) { DecimalLengthIs(body + d, d); }
      assert Pow10(d + 1) == 10 * Pow10(d);
      DecimalLengthIs(body + d + 1, d + 1);
    }
  }

  /** The header for a list of pairs. */
  function Encode(pairs: seq<(string, string)>): (rs: seq<Record>)
    ensures |rs| == |pairs|
  {
    seq(|pairs|, i requires 0 <= i < |pairs| =>
      Record(StatedLength(1 + |Body(pairs[i].0, pairs[i].1)|), pairs[i].0, pairs[i].1))
  }

  /** Parsing undoes printing for every list of distinct known keywords with clean values. */
  lemma RoundTrip(pairs: seq<(string, string)>)
    requires forall i :: 0 <= i < |pairs| ==> KnownKey(pairs[i].0) && CleanValue(pairs[i].1)
    requires forall i, j :: 0 <= i < j < |pairs| ==> pairs[i].0 != pairs[j].0
    ensures Parse(Print(Encode(pairs)), {}) == Ok(Encode(pairs))
  {
    hide KnownKey, CleanValue, Consistent, StatedLength, Parse, Print;
    var rs := Encode(pairs);
    forall i | 0 <= i < |rs|
      ensures ValidRecord(rs[i])
    {
      StatedLengthIsConsistent(pairs[i].0, pairs[i].1);
    }
    ParseComplete(rs, {});
  }

  /** One keyword and value have at most two written forms. The longer exists exactly when
      counting one more byte needs one more digit. */
  lemma AtMostTwoWrittenForms(key: string, value: string, l: nat, m: nat)
    requires Consistent(Record(l, key, value)) && l < m
    ensures Consistent(Record(m, key, value)) <==> m == l + 1 && |Decimal(m)| == |Decimal(l)| + 1
  {
    if Consistent(Record(m, key, value)) {
      var d, e := |Decimal(l)|, |Decimal(m)|;
      assert m - l == e - d;
      DecimalLength(l);
      DecimalLength(m);
      if e >= d + 2 {
        Pow10Monotone(d + 1, e - 1);
        PowerGap(d, e);
      }
    }
  }

  /** Two more digits need more than two more bytes. */
  lemma {:induction false} PowerGap(d: nat, e: nat)
    requires e >= d + 2
    ensures Pow10(e - 1) > Pow10(d) + (e - d)
    decreases e
  {
    Pow10Grows(d);
    if e == d + 2 {
      assert Pow10(e - 1) == 10 * Pow10(d);
    } else {
      PowerGap(d, e - 1);
      assert Pow10(e - 1) == 10 * Pow10(e - 2);
    }
  }

  /** A pair with two written forms: the writer's output is not the only accepted header. */
  lemma TwoWrittenForms()
    ensures Written(Record(9, "gid", "12")) == "9 gid=12\n"
    ensures Written(Record(10, "gid", "12")) == "10 gid=12\n"
    ensures ValidRecord(Record(9, "gid", "12")) && ValidRecord(Record(10, "gid", "12"))
  {
    assert Decimal(9) == "9";
    assert Decimal(10) == "10" by { assert Decimal(1) == "1"; }
    assert Body("gid", "12") == "gid=12\n";
  }
}
