/** Percent escapes of workflow commands (`unescape_v2_data` and `unescape_v2_property` in
    crates/automata-ci-actions-runtime/src/workflow_command.rs). */
module Escapes {

  import opened Text

  /** The three characters `%`, `first`, `second` stand for `out`. */
  datatype Rule = Rule(first: char, second: char, out: char)

  /** `str::replace` of one escape by one character: leftmost, non-overlapping. */
  function Replace(s: string, rule: Rule): (r: string)
    ensures s != "" ==> r != ""
  {
    if s == "" then ""
    else if |s| >= 3 && s[0] == '%' && s[1] == rule.first && s[2] == rule.second then [rule.out] + Replace(s[3..], rule)
    else [s[0]] + Replace(s[1..], rule)
  }

  const DATA_RULES := [Rule('0', 'D', '\r'), Rule('0', 'A', '\n'), Rule('2', '5', '%')]

  const PROPERTY_RULES :=
    [Rule('0', 'D', '\r'), Rule('0', 'A', '\n'), Rule('3', 'A', ':'), Rule('2', 'C', ','), Rule('2', '5', '%')]

  function UnescapeData(s: string): string
  {
    Replace(Replace(Replace(s, Rule('0', 'D', '\r')), Rule('0', 'A', '\n')), Rule('2', '5', '%'))
  }

  function UnescapeProperty(s: string): string
  {
    Replace(Replace(Replace(Replace(Replace(s,
      Rule('0', 'D', '\r')), Rule('0', 'A', '\n')), Rule('3', 'A', ':')), Rule('2', 'C', ',')), Rule('2', '5', '%'))
  }

  // ----- The single-pass reference decoder -----

  /** The rule for a code, if any. */
  function Lookup(rules: seq<Rule>, first: char, second: char): (r: Option<char>)
    ensures r.Some? ==> exists i :: 0 <= i < |rules| && rules[i] == Rule(first, second, r.value)
    ensures r.None? ==> forall i :: 0 <= i < |rules| ==> rules[i].first != first || rules[i].second != second
  {
    if rules == [] then None
    else if rules[0].first == first && rules[0].second == second then Some(rules[0].out)
    else Lookup(rules[1..], first, second)
  }

  predicate Coded(s: string, rules: seq<Rule>)
  {
    |s| >= 3 && s[0] == '%' && Lookup(rules, s[1], s[2]).Some?
  }

  /** One left-to-right pass that decodes each escape it meets and copies everything else. */
  function Decode(s: string, rules: seq<Rule>): string
  {
    if s == "" then ""
    else if Coded(s, rules) then [Lookup(rules, s[1], s[2]).value] + Decode(s[3..], rules)
    else [s[0]] + Decode(s[1..], rules)
  }

  /** Adding `rule` last is safe: nothing decoded so far can look like part of its escape. */
  predicate Appendable(rules: seq<Rule>, rule: Rule)
  {
    && rule.first != '%' && rule.second != '%'
    && forall i :: 0 <= i < |rules| ==>
         && rules[i].out !in ['%', rule.first, rule.second]
         && (rules[i].first != rule.first || rules[i].second != rule.second)
  }

  lemma {:induction false} LookupSnoc(rules: seq<Rule>, rule: Rule, first: char, second: char)
    ensures Lookup(rules + [rule], first, second) ==
              if Lookup(rules, first, second).Some? then Lookup(rules, first, second)
              else if rule.first == first && rule.second == second then Some(rule.out) else None
  {
    if rules == [] {
      assert rules + [rule] == [rule];
    } else {
      assert (rules + [rule])[1..] == rules[1..] + [rule];
      LookupSnoc(rules[1..], rule, first, second);
    }
  }

  lemma {:induction false} DecodeNothing(s: string)
    ensures Decode(s, []) == s
  {
    if s != "" {
      DecodeNothing(s[1..]);
    }
  }

  /** A decoded text starts with a character no rule produces only if the source does. */
  lemma DecodeHead(s: string, rules: seq<Rule>, c: char)
    requires c != '%' && forall i :: 0 <= i < |rules| ==> rules[i].out != c
    ensures s != "" && s[0] == c ==> Decode(s, rules) == [c] + Decode(s[1..], rules)
    ensures Decode(s, rules) != "" && Decode(s, rules)[0] == c ==> s != "" && s[0] == c
  {
  }

  /** One more replacement of a decoded text is one more rule of the decoder. */
  lemma {:induction false} ReplaceExtendsDecode(s: string, rules: seq<Rule>, rule: Rule)
    requires Appendable(rules, rule)
    ensures Replace(Decode(s, rules), rule) == Decode(s, rules + [rule])
  {
    if s != "" {
      if |s| >= 3 { LookupSnoc(rules, rule, s[1], s[2]); }
      var d := Decode(s, rules);
      if Coded(s, rules) {
        ReplaceExtendsDecode(s[3..], rules, rule);
        assert d[1..] == Decode(s[3..], rules);
      } else if Coded(s, rules + [rule]) {
        DecodeHead(s[1..], rules, s[1]);
        DecodeHead(s[2..], rules, s[2]);
        assert s[1..][1..] == s[2..] && s[2..][1..] == s[3..];
        assert d == ['%', s[1], s[2]] + Decode(s[3..], rules);
        assert d[3..] == Decode(s[3..], rules);
        ReplaceExtendsDecode(s[3..], rules, rule);
      } else {
        ReplaceExtendsDecode(s[1..], rules, rule);
        assert d[1..] == Decode(s[1..], rules);
        DecodeHead(s[1..], rules, rule.first);
        if |s| >= 2 {
          DecodeHead(s[2..], rules, rule.second);
          assert s[1..][1..] == s[2..];
        }
      }
    }
  }

  /** On every input the chain of `replace` calls is a single left-to-right decode. */
  lemma UnescapeDataIsOnePass(s: string)
    ensures UnescapeData(s) == Decode(s, DATA_RULES)
  {
    hide Decode, Replace;
    var r := DATA_RULES;
    DecodeNothing(s);
    assert [] + [r[0]] == [r[0]] && [r[0]] + [r[1]] == [r[0], r[1]] && [r[0], r[1]] + [r[2]] == r;
    ReplaceExtendsDecode(s, [], r[0]);
    ReplaceExtendsDecode(s, [r[0]], r[1]);
    ReplaceExtendsDecode(s, [r[0], r[1]], r[2]);
  }

  lemma PropertyRulesAppendable(r: seq<Rule>)
    requires r == PROPERTY_RULES
    ensures Appendable([], r[0]) && Appendable([r[0]], r[1]) && Appendable([r[0], r[1]], r[2])
    ensures Appendable([r[0], r[1], r[2]], r[3]) && Appendable([r[0], r[1], r[2], r[3]], r[4])
  {
  }

  lemma UnescapePropertyIsOnePass(s: string)
    ensures UnescapeProperty(s) == Decode(s, PROPERTY_RULES)
  {
    hide Decode, Replace, Appendable;
    var r := PROPERTY_RULES;
    PropertyRulesAppendable(r);
    DecodeNothing(s);
    assert [] + [r[0]] == [r[0]] && [r[0]] + [r[1]] == [r[0], r[1]];
    assert [r[0], r[1]] + [r[2]] == [r[0], r[1], r[2]] && [r[0], r[1], r[2]] + [r[3]] == [r[0], r[1], r[2], r[3]];
    assert [r[0], r[1], r[2], r[3]] + [r[4]] == r;
    ReplaceExtendsDecode(s, [], r[0]);
    ReplaceExtendsDecode(s, [r[0]], r[1]);
    ReplaceExtendsDecode(s, [r[0], r[1]], r[2]);
    ReplaceExtendsDecode(s, [r[0], r[1], r[2]], r[3]);
    ReplaceExtendsDecode(s, [r[0], r[1], r[2], r[3]], r[4]);
  }

  // ----- Escaping -----

  function RuleFor(rules: seq<Rule>, c: char): (r: Option<Rule>)
    ensures r.Some? ==> r.value in rules && r.value.out == c
    ensures r.None? ==> forall i :: 0 <= i < |rules| ==> rules[i].out != c
  {
    if rules == [] then None else if rules[0].out == c then Some(rules[0]) else RuleFor(rules[1..], c)
  }

  function EscapeChar(c: char, rules: seq<Rule>): (r: string)
    ensures r != ""
  {
    match RuleFor(rules, c)
    case None => [c]
    case Some(rule) => ['%', rule.first, rule.second]
  }

  function Escape(s: string, rules: seq<Rule>): (r: string)
    ensures |r| >= |s|
  {
    if s == "" then "" else EscapeChar(s[0], rules) + Escape(s[1..], rules)
  }

  function EscapeData(s: string): string
  {
    Escape(s, DATA_RULES)
  }

  function EscapeProperty(s: string): string
  {
    Escape(s, PROPERTY_RULES)
  }

  /** Codes are distinct, and the escape character is itself escaped. */
  predicate Reversible(rules: seq<Rule>)
  {
    && (forall i, j :: 0 <= i < j < |rules| ==> rules[i].first != rules[j].first || rules[i].second != rules[j].second)
    && exists i :: 0 <= i < |rules| && rules[i].out == '%'
  }

  lemma {:induction false} DecodeOfEscape(s: string, rules: seq<Rule>)
    requires Reversible(rules)
    ensures Decode(Escape(s, rules), rules) == s
  {
    if s != "" {
      var e, rest := EscapeChar(s[0], rules), Escape(s[1..], rules);
      var whole := Escape(s, rules);
      DecodeOfEscape(s[1..], rules);
      match RuleFor(rules, s[0]) {
        case Some(rule) =>
          var found := Lookup(rules, rule.first, rule.second);
          assert whole[0] == '%' && whole[1] == rule.first && whole[2] == rule.second && whole[3..] == rest;
          assert found == Some(rule.out);
        case None =>
          assert s[0] != '%';
          assert whole[0] == s[0] && whole[1..] == rest;
      }
    }
  }

  lemma DataRulesReversible()
    ensures Reversible(DATA_RULES) && Reversible(PROPERTY_RULES)
  {
    assert DATA_RULES[2].out == '%' && PROPERTY_RULES[4].out == '%';
  }

  /** Unescaping undoes escaping, for command data and for property values. */
  lemma UnescapeOfEscape(s: string)
    ensures UnescapeData(EscapeData(s)) == s && UnescapeProperty(EscapeProperty(s)) == s
  {
    DataRulesReversible();
    UnescapeDataIsOnePass(EscapeData(s));
    UnescapePropertyIsOnePass(EscapeProperty(s));
    DecodeOfEscape(s, DATA_RULES);
    DecodeOfEscape(s, PROPERTY_RULES);
  }

  /** Escaped text contains none of the characters that rules produce, except the escape character. */
  lemma {:induction false} EscapedIsPlain(s: string, rules: seq<Rule>, c: char)
    requires c != '%' && forall i :: 0 <= i < |rules| ==> rules[i].first != c && rules[i].second != c
    requires exists i :: 0 <= i < |rules| && rules[i].out == c
    ensures c !in Escape(s, rules)
  {
    if s != "" {
      EscapedIsPlain(s[1..], rules, c);
      var e := EscapeChar(s[0], rules);
      assert c !in e;
    }
  }

  /** A trailing character that no code contains is decoded to itself. */
  lemma {:induction false} DecodeSnoc(s: string, rules: seq<Rule>, w: char)
    requires forall i :: 0 <= i < |rules| ==> rules[i].first != w && rules[i].second != w
    ensures Decode(s + [w], rules) == Decode(s, rules) + [w]
  {
    if s == "" {
      assert s + [w] == [w];
    } else if Coded(s, rules) {
      assert (s + [w])[3..] == s[3..] + [w];
      DecodeSnoc(s[3..], rules, w);
    } else {
      assert (s + [w])[1..] == s[1..] + [w];
      assert !Coded(s + [w], rules);
      DecodeSnoc(s[1..], rules, w);
    }
  }

  /** The escapes as they are written: carriage return, line feed and percent sign in data, colon and comma besides in
      property values. */
  lemma EscapesExactly(c: char)
    ensures EscapeChar(c, DATA_RULES) ==
              if c == '\r' then "%0D" else if c == '\n' then "%0A" else if c == '%' then "%25" else [c]
    ensures EscapeChar(c, PROPERTY_RULES) ==
              if c == ':' then "%3A" else if c == ',' then "%2C" else EscapeChar(c, DATA_RULES)
  {
    hide RuleFor;
    var d, p := DATA_RULES, PROPERTY_RULES;
    assert d[0].out == '\r' && d[1].out == '\n' && d[2].out == '%';
    assert p[0].out == '\r' && p[1].out == '\n' && p[2].out == ':' && p[3].out == ',' && p[4].out == '%';
  }

  /** A text without percent signs stands for itself. */
  lemma {:induction false} PlainIsKept(s: string)
    requires '%' !in s
    ensures UnescapeData(s) == s && UnescapeProperty(s) == s
  {
    UnescapeDataIsOnePass(s);
    UnescapePropertyIsOnePass(s);
    PlainDecodes(s, DATA_RULES);
    PlainDecodes(s, PROPERTY_RULES);
  }

  lemma {:induction false} PlainDecodes(s: string, rules: seq<Rule>)
    requires '%' !in s
    ensures Decode(s, rules) == s
  {
    if s != "" {
      PlainDecodes(s[1..], rules);
    }
  }
}
