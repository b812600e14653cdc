/** What location normalization does to an annotation, case by case, and that it does nothing else
    (`normalize_annotation_locations` in crates/automata-ci-actions-runtime/src/workflow_command.rs). */
module AnnotationTable {

  import opened Text
  import opened WorkflowCommands
  import opened AnnotationLocations

  // ----- Numbers -----

  /** Decimal digits, perhaps after a sign. */
  ghost predicate IsNumeral(t: string, n: int)
  {
    exists digits ::
      && AllDigits(digits)
      && ((t == digits && n == ParseDecimal(digits)) || (t == "+" + digits && n == ParseDecimal(digits))
          || (t == "-" + digits && n == 0 - ParseDecimal(digits)))
  }

  lemma NumeralExactly(t: string, n: int)
    ensures IsNumeral(t, n) <==>
              var signed := t != "" && (t[0] == '-' || t[0] == '+');
              var digits := if signed then t[1..] else t;
              && AllDigits(digits)
              && n == if signed && t[0] == '-' then 0 - ParseDecimal(digits) as int else ParseDecimal(digits)
  {
    var signed := t != "" && (t[0] == '-' || t[0] == '+');
    var digits := if signed then t[1..] else t;
    if signed { assert t == [t[0]] + digits; }
    if IsNumeral(t, n) {
      var d :|
        && AllDigits(d)
        && ((t == d && n == ParseDecimal(d)) || (t == "+" + d && n == ParseDecimal(d)) || (t == "-" + d && n == 0 - ParseDecimal(d)));
      assert IsDigit(d[0]);
      assert d == digits;
    }
  }

  /** A text is a number exactly when it is a numeral of a 32-bit integer with white space around it. */
  lemma NumberExactly(text: string, n: int)
    ensures ParseNumber(Some(text)) == Some(n) <==>
              -0x8000_0000 <= n < 0x8000_0000 && exists t :: IsTrim(text, t) && IsNumeral(t, n)
  {
    hide Trim, IsTrim, IsNumeral;
    var t := Trim(text);
    TrimExactly(text, t);
    NumeralExactly(t, n);
    forall u | IsTrim(text, u)
      ensures u == t
    {
      TrimExactly(text, u);
    }
  }

  // ----- Other properties -----

  predicate IsLocation(name: string)
  {
    SameLetters(name, "line") || SameLetters(name, "endLine") || SameLetters(name, "col") || SameLetters(name, "endColumn")
  }

  /** The properties that are not locations, in order. */
  function Others(ps: seq<Property>): seq<Property>
  {
    if ps == [] then [] else (if IsLocation(ps[0].name) then [] else [ps[0]]) + Others(ps[1..])
  }

  lemma {:induction false} OthersConcat(a: seq<Property>, b: seq<Property>)
    ensures Others(a + b) == Others(a) + Others(b)
  {
    hide IsLocation;
    if a == [] {
      assert a + b == b;
    } else {
      assert (a + b)[1..] == a[1..] + b;
      OthersConcat(a[1..], b);
    }
  }

  lemma OthersOfOne(p: Property)
    ensures Others([p]) == if IsLocation(p.name) then [] else [p]
  {
    hide IsLocation;
    assert [p][1..] == [];
  }

  lemma EqualIsLocation(a: string, b: string)
    requires EqIgnoreCase(a, b)
    ensures IsLocation(a) <==> IsLocation(b)
  {
    hide Lower, SameLetters;
    EqIgnoreCaseExactly(a, "line");
    EqIgnoreCaseExactly(a, "endLine");
    EqIgnoreCaseExactly(a, "col");
    EqIgnoreCaseExactly(a, "endColumn");
    EqIgnoreCaseExactly(b, "line");
    EqIgnoreCaseExactly(b, "endLine");
    EqIgnoreCaseExactly(b, "col");
    EqIgnoreCaseExactly(b, "endColumn");
  }

  lemma OthersOfStore(ps: seq<Property>, name: string, value: string)
    requires IsLocation(name)
    ensures Others(Store(ps, name, value)) == Others(ps)
  {
    hide IsLocation, EqIgnoreCase, Others;
    var k := Position(ps, name);
    if k < |ps| {
      var p := Property(ps[k].name, value);
      EqualIsLocation(ps[k].name, name);
      assert ps == ps[..k] + ([ps[k]] + ps[k + 1..]) && ps[k := p] == ps[..k] + ([p] + ps[k + 1..]);
      OthersConcat(ps[..k], [ps[k]] + ps[k + 1..]);
      OthersConcat(ps[..k], [p] + ps[k + 1..]);
      OthersConcat([ps[k]], ps[k + 1..]);
      OthersConcat([p], ps[k + 1..]);
      OthersOfOne(ps[k]);
      OthersOfOne(p);
    } else {
      OthersConcat(ps, [Property(name, value)]);
      OthersOfOne(Property(name, value));
      assert Others(ps) + [] == Others(ps);
    }
  }

  lemma {:induction false} OthersOfRemove(ps: seq<Property>, name: string)
    requires IsLocation(name)
    ensures Others(Remove(ps, name)) == Others(ps)
  {
    hide IsLocation, EqIgnoreCase;
    if ps != [] {
      OthersOfRemove(ps[1..], name);
      if EqIgnoreCase(ps[0].name, name) {
        EqualIsLocation(ps[0].name, name);
      } else {
        OthersConcat([ps[0]], Remove(ps[1..], name));
        OthersOfOne(ps[0]);
      }
    }
  }

  lemma OthersOfRemovals(ps: seq<Property>)
    ensures Others(RemoveLines(ps)) == Others(ps) && Others(RemoveColumns(ps)) == Others(ps)
  {
    hide Others, Remove;
    OthersOfRemove(ps, "line");
    OthersOfRemove(Remove(ps, "line"), "endLine");
    OthersOfRemove(ps, "col");
    OthersOfRemove(Remove(ps, "col"), "endColumn");
  }

  /** Every property that is not a location keeps its spelling, its value and its place among the others. */
  lemma OthersAreKept(ps: seq<Property>)
    ensures Others(Normalize(ps)) == Others(ps)
  {
    hide Others, Store, RemoveLines, RemoveColumns, ParseNumber, LocationsOf;
    var l := LocationsOf(ps);
    assert IsLocation("line") && IsLocation("col");
    OthersOfStore(ps, "line", GetOr(l.endLine, ""));
    var a := if ParseNumber(l.endLine).Some? && ParseNumber(l.line).None? then Store(ps, "line", GetOr(l.endLine, "")) else ps;
    OthersOfStore(a, "col", GetOr(l.endColumn, ""));
    var b := if ParseNumber(l.endColumn).Some? && ParseNumber(l.column).None? then Store(a, "col", GetOr(l.endColumn, "")) else a;
    OthersOfRemovals(b);
    var c := if ColumnsWithoutLine(l) then RemoveColumns(b) else b;
    OthersOfRemovals(c);
    var d := if ColumnsAcrossLines(l) then RemoveColumns(c) else c;
    OthersOfRemovals(d);
    var e := if Reversed(l.line, l.endLine) then RemoveLines(d) else d;
    OthersOfRemovals(e);
  }

  // ----- The locations -----

  /** A start and an end, before and after: a numeric end that lies before its start, or below zero without one, takes
      both away; a numeric end without a numeric start gives its text to the start. */
  predicate Settles(start: Option<string>, end: Option<string>, start': Option<string>, end': Option<string>)
  {
    match (ParseNumber(start), ParseNumber(end))
    case (_, None) => start' == start && end' == end
    case (Some(a), Some(b)) => if b < a then start' == None && end' == None else start' == start && end' == end
    case (None, Some(b)) => if b < 0 then start' == None && end' == None else start' == end && end' == end
  }

  /** Columns say nothing without a line, or across lines of different text. */
  predicate ColumnsMeanNothing(l: Locations)
  {
    && (ParseNumber(l.column).Some? || ParseNumber(l.endColumn).Some?)
    && (|| (ParseNumber(l.line).None? && ParseNumber(l.endLine).None?)
        || (ParseNumber(l.line).Some? && ParseNumber(l.endLine).Some? && l.line != l.endLine))
  }

  /** The table of all cases. */
  lemma NormalizationTable(ps: seq<Property>)
    ensures var l, m := LocationsOf(ps), LocationsOf(Normalize(ps));
            && Settles(l.line, l.endLine, m.line, m.endLine)
            && (if ColumnsMeanNothing(l) then m.column == None && m.endColumn == None
                else Settles(l.column, l.endColumn, m.column, m.endColumn))
  {
    hide ParseNumber, Normalize, LocationsOf;
    NormalizeValues(ps);
  }
}
