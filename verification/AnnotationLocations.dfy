/** Location normalization of annotations (`normalize_annotation_locations` in
    crates/automata-ci-actions-runtime/src/workflow_command.rs). */
module AnnotationLocations {

  import opened Text
  import opened WorkflowCommands

  // ----- Numbers -----

  predicate AllDigits(s: string)
  {
    s != "" && forall i :: 0 <= i < |s| ==> IsDigit(s[i])
  }

  /** `parse_dotnet_i32`: trims, then reads an optionally signed 32-bit integer. */
  function ParseNumber(text: Option<string>): Option<int>
  {
    if text.None? then None else
      var t := Trim(text.value);
      var signed := t != "" && (t[0] == '-' || t[0] == '+');
      var digits := if signed then t[1..] else t;
      if !AllDigits(digits) then None else
        var n: int := if signed && t[0] == '-' then 0 - ParseDecimal(digits) as int else ParseDecimal(digits);
        if -0x8000_0000 <= n < 0x8000_0000 then Some(n) else None
  }

  // ----- Property lists -----

  /** `property_value`. */
  function Value(ps: seq<Property>, name: string): Option<string>
  {
    var k := Position(ps, name);
    if k < |ps| then Some(ps[k].value) else None
  }

  /** `remove_property`. */
  function Remove(ps: seq<Property>, name: string): seq<Property>
  {
    if ps == [] then []
    else if EqIgnoreCase(ps[0].name, name) then Remove(ps[1..], name)
    else [ps[0]] + Remove(ps[1..], name)
  }

  lemma ValueOfStore(ps: seq<Property>, name: string, value: string, other: string)
    ensures Value(Store(ps, name, value), other) == if EqIgnoreCase(name, other) then Some(value) else Value(ps, other)
  {
    hide Lower, Position;
    var k, qs := Position(ps, name), Store(ps, name, value);
    var j, p := Position(qs, other), Position(ps, other);
    if k < |ps| {
      assert forall i :: 0 <= i < |ps| ==> qs[i].name == ps[i].name;
      assert j == p;
    } else {
      assert (forall i :: 0 <= i < |ps| ==> qs[i] == ps[i]) && qs[|ps|] == Property(name, value);
      assert p < |ps| ==> j == p;
      assert p == |ps| ==> j >= |ps|;
    }
  }

  lemma {:induction false} ValueOfRemove(ps: seq<Property>, name: string, other: string)
    ensures Value(Remove(ps, name), other) == if EqIgnoreCase(name, other) then None else Value(ps, other)
  {
    hide Lower;
    if ps != [] {
      ValueOfRemove(ps[1..], name, other);
    }
  }

  // ----- Normalization -----

  /** The four location properties, as the values found under their names. */
  datatype Locations = Locations(
    line: Option<string>, endLine: Option<string>, column: Option<string>, endColumn: Option<string>)

  function LocationsOf(ps: seq<Property>): Locations
  {
    Locations(Value(ps, "line"), Value(ps, "endLine"), Value(ps, "col"), Value(ps, "endColumn"))
  }

  /** `normalize_annotation_locations`, updating the property vector in place. */
  method NormalizeLocations(source: seq<Property>) returns (properties: seq<Property>)
    ensures LocationsOf(properties) == Normalized(LocationsOf(source))
    ensures properties == Normalize(source)
  {
    hide ParseNumber, Store, Remove, Value;
    properties := source;
    var line := Value(properties, "line");
    var endLine := Value(properties, "endLine");
    var column := Value(properties, "col");
    var endColumn := Value(properties, "endColumn");
    var parsedLine, parsedEndLine := ParseNumber(line), ParseNumber(endLine);
    var parsedColumn, parsedEndColumn := ParseNumber(column), ParseNumber(endColumn);
    var hasLine, hasEndLine := parsedLine.Some?, parsedEndLine.Some?;
    var hasColumn, hasEndColumn := parsedColumn.Some?, parsedEndColumn.Some?;
    NormalizeValues(source);

    if hasEndLine && !hasLine {
      properties := Store(properties, "line", GetOr(endLine, ""));
      line := endLine;
      parsedLine := Some(0);
      hasLine := true;
    }
    if hasEndColumn && !hasColumn {
      properties := Store(properties, "col", GetOr(endColumn, ""));
      parsedColumn := Some(0);
      hasColumn := true;
    }
    if !hasLine && (hasColumn || hasEndColumn) {
      properties := RemoveColumns(properties);
    }
    if hasEndLine && line != endLine && (hasColumn || hasEndColumn) {
      properties := RemoveColumns(properties);
    }
    if parsedLine.Some? && parsedEndLine.Some? && parsedEndLine.value < parsedLine.value {
      properties := RemoveLines(properties);
    }
    if parsedColumn.Some? && parsedEndColumn.Some? && parsedEndColumn.value < parsedColumn.value {
      properties := RemoveColumns(properties);
    }
  }

  function RemoveColumns(ps: seq<Property>): seq<Property>
  {
    Remove(Remove(ps, "col"), "endColumn")
  }

  function RemoveLines(ps: seq<Property>): seq<Property>
  {
    Remove(Remove(ps, "line"), "endLine")
  }

  /** A start location that is missing is taken from its end, and then counts as zero. */
  function StartText(start: Option<string>, end: Option<string>): Option<string>
  {
    if ParseNumber(end).Some? && ParseNumber(start).None? then end else start
  }

  function StartNumber(start: Option<string>, end: Option<string>): Option<int>
  {
    if ParseNumber(end).Some? && ParseNumber(start).None? then Some(0) else ParseNumber(start)
  }

  predicate Reversed(start: Option<string>, end: Option<string>)
  {
    && ParseNumber(end).Some? && StartNumber(start, end).Some?
    && ParseNumber(end).value < StartNumber(start, end).value
  }

  predicate HasColumns(l: Locations)
  {
    ParseNumber(l.column).Some? || ParseNumber(l.endColumn).Some?
  }

  predicate ColumnsWithoutLine(l: Locations)
  {
    StartNumber(l.line, l.endLine).None? && HasColumns(l)
  }

  predicate ColumnsAcrossLines(l: Locations)
  {
    ParseNumber(l.endLine).Some? && StartText(l.line, l.endLine) != l.endLine && HasColumns(l)
  }

  predicate DropsColumns(l: Locations)
  {
    ColumnsWithoutLine(l) || ColumnsAcrossLines(l) || Reversed(l.column, l.endColumn)
  }

  /** What normalization leaves under the four names. */
  function Normalized(l: Locations): Locations
  {
    var lines, columns := Reversed(l.line, l.endLine), DropsColumns(l);
    Locations(
      if lines then None else StartText(l.line, l.endLine),
      if lines then None else l.endLine,
      if columns then None else StartText(l.column, l.endColumn),
      if columns then None else l.endColumn)
  }

  /** The same steps as a function of the property list. */
  function Normalize(ps: seq<Property>): seq<Property>
  {
    var l := LocationsOf(ps);
    var a := if ParseNumber(l.endLine).Some? && ParseNumber(l.line).None? then Store(ps, "line", GetOr(l.endLine, "")) else ps;
    var b := if ParseNumber(l.endColumn).Some? && ParseNumber(l.column).None? then Store(a, "col", GetOr(l.endColumn, "")) else a;
    var c := if ColumnsWithoutLine(l) then RemoveColumns(b) else b;
    var d := if ColumnsAcrossLines(l) then RemoveColumns(c) else c;
    var e := if Reversed(l.line, l.endLine) then RemoveLines(d) else d;
    if Reversed(l.column, l.endColumn) then RemoveColumns(e) else e
  }

  lemma LocationNamesDiffer()
    ensures !EqIgnoreCase("line", "endLine") && !EqIgnoreCase("line", "col") && !EqIgnoreCase("line", "endColumn")
    ensures !EqIgnoreCase("endLine", "col") && !EqIgnoreCase("endLine", "endColumn") && !EqIgnoreCase("col", "endColumn")
    ensures EqIgnoreCase("line", "line") && EqIgnoreCase("endLine", "endLine")
    ensures EqIgnoreCase("col", "col") && EqIgnoreCase("endColumn", "endColumn")
  {
    assert |Lower("line")| == 4 && |Lower("endLine")| == 7 && |Lower("col")| == 3 && |Lower("endColumn")| == 9;
  }

  lemma Symmetric(a: string, b: string)
    ensures EqIgnoreCase(a, b) <==> EqIgnoreCase(b, a)
  {
  }

  lemma LocationsOfStore(ps: seq<Property>, value: string)
    ensures LocationsOf(Store(ps, "line", value)) == LocationsOf(ps).(line := Some(value))
    ensures LocationsOf(Store(ps, "col", value)) == LocationsOf(ps).(column := Some(value))
  {
    hide Lower, Value, Store;
    LocationNamesDiffer();
    ValueOfStore(ps, "line", value, "line");
    ValueOfStore(ps, "line", value, "endLine");
    ValueOfStore(ps, "line", value, "col");
    ValueOfStore(ps, "line", value, "endColumn");
    ValueOfStore(ps, "col", value, "line");
    ValueOfStore(ps, "col", value, "endLine");
    ValueOfStore(ps, "col", value, "col");
    ValueOfStore(ps, "col", value, "endColumn");
  }

  lemma LocationsOfRemove(ps: seq<Property>)
    ensures LocationsOf(RemoveLines(ps)) == LocationsOf(ps).(line := None, endLine := None)
    ensures LocationsOf(RemoveColumns(ps)) == LocationsOf(ps).(column := None, endColumn := None)
  {
    hide Lower, Value, Remove;
    LocationNamesDiffer();
    RemoveOne(ps, "line");
    RemoveOne(Remove(ps, "line"), "endLine");
    RemoveOne(ps, "col");
    RemoveOne(Remove(ps, "col"), "endColumn");
  }

  lemma RemoveOne(ps: seq<Property>, name: string)
    ensures LocationsOf(Remove(ps, name)) == Locations(
              if EqIgnoreCase(name, "line") then None else Value(ps, "line"),
              if EqIgnoreCase(name, "endLine") then None else Value(ps, "endLine"),
              if EqIgnoreCase(name, "col") then None else Value(ps, "col"),
              if EqIgnoreCase(name, "endColumn") then None else Value(ps, "endColumn"))
  {
    hide EqIgnoreCase, Value, Remove;
    ValueOfRemove(ps, name, "line");
    ValueOfRemove(ps, name, "endLine");
    ValueOfRemove(ps, name, "col");
    ValueOfRemove(ps, name, "endColumn");
  }

  /** The values after normalization depend on the four values before it only. */
  lemma NormalizeValues(ps: seq<Property>)
    ensures LocationsOf(Normalize(ps)) == Normalized(LocationsOf(ps))
  {
    hide ParseNumber, Store, RemoveLines, RemoveColumns, LocationsOf;
    var l := LocationsOf(ps);
    NumberHasText(l.endLine);
    NumberHasText(l.endColumn);
    LocationsOfStore(ps, GetOr(l.endLine, ""));
    var a := if ParseNumber(l.endLine).Some? && ParseNumber(l.line).None? then Store(ps, "line", GetOr(l.endLine, "")) else ps;
    LocationsOfStore(a, GetOr(l.endColumn, ""));
    var b := if ParseNumber(l.endColumn).Some? && ParseNumber(l.column).None? then Store(a, "col", GetOr(l.endColumn, "")) else a;
    assert LocationsOf(b) == Locations(StartText(l.line, l.endLine), l.endLine, StartText(l.column, l.endColumn), l.endColumn);
    LocationsOfRemove(b);
    var c := if ColumnsWithoutLine(l) then RemoveColumns(b) else b;
    LocationsOfRemove(c);
    var d := if ColumnsAcrossLines(l) then RemoveColumns(c) else c;
    LocationsOfRemove(d);
    var e := if Reversed(l.line, l.endLine) then RemoveLines(d) else d;
    LocationsOfRemove(e);
  }

  lemma NumberHasText(text: Option<string>)
    ensures ParseNumber(text).Some? ==> text.Some? && Some(GetOr(text, "")) == text
  {
  }

  // ----- What normalization guarantees -----

  predicate Ordered(start: Option<string>, end: Option<string>)
  {
    ParseNumber(end).Some? ==> ParseNumber(start).Some? && ParseNumber(start).value <= ParseNumber(end).value
  }

  /** Every numeric end has a numeric start no greater than it, and numeric columns never survive
      beside a numeric end line whose text differs from the line's. */
  lemma NormalizedLocations(ps: seq<Property>)
    ensures var l := LocationsOf(Normalize(ps));
            && Ordered(l.line, l.endLine) && Ordered(l.column, l.endColumn)
            && (ParseNumber(l.endLine).Some? && l.line != l.endLine ==> !HasColumns(l))
  {
    hide ParseNumber, Normalize, LocationsOf;
    NormalizeValues(ps);
    MissingIsNoNumber();
  }

  lemma MissingIsNoNumber()
    ensures ParseNumber(None) == None
  {
  }

  /** The one family normalization leaves unfinished: a negative end line with no numeric line is
      dropped as reversed, but its columns are kept. */
  predicate LeavesColumns(l: Locations)
  {
    && ParseNumber(l.endLine).Some? && ParseNumber(l.endLine).value < 0 && ParseNumber(l.line).None?
    && HasColumns(l) && !Reversed(l.column, l.endColumn)
  }

  lemma NormalizedTwice(l: Locations)
    ensures Normalized(Normalized(l)) == Normalized(l) <==> !LeavesColumns(l)
    ensures LeavesColumns(l) <==> HasColumns(Normalized(l)) && ParseNumber(Normalized(l).line).None?
  {
    hide ParseNumber;
    MissingIsNoNumber();
  }

  /** A list normalization changes has its values changed. */
  lemma FixedExactly(ps: seq<Property>)
    ensures Normalize(ps) == ps <==> Normalized(LocationsOf(ps)) == LocationsOf(ps)
  {
    hide ParseNumber, Store, RemoveLines, RemoveColumns, LocationsOf;
    NormalizeValues(ps);
    MissingIsNoNumber();
  }

  /** Normalization is idempotent exactly outside that family. */
  lemma IdempotentExactly(ps: seq<Property>)
    ensures Normalize(Normalize(ps)) == Normalize(ps) <==> !LeavesColumns(LocationsOf(ps))
  {
    hide ParseNumber, Normalize, LocationsOf, Normalized, LeavesColumns;
    FixedExactly(Normalize(ps));
    NormalizeValues(ps);
    NormalizedTwice(LocationsOf(ps));
  }

  predicate NoNegativeLocation(l: Locations)
  {
    forall t :: t in [l.line, l.endLine, l.column, l.endColumn] && ParseNumber(t).Some? ==> ParseNumber(t).value >= 0
  }

  lemma IdempotentWithoutNegatives(ps: seq<Property>)
    requires NoNegativeLocation(LocationsOf(ps))
    ensures Normalize(Normalize(ps)) == Normalize(ps)
  {
    hide ParseNumber, Normalize;
    assert LocationsOf(ps).endLine in [LocationsOf(ps).line, LocationsOf(ps).endLine, LocationsOf(ps).column, LocationsOf(ps).endColumn];
    IdempotentExactly(ps);
  }

  /** A concrete annotation that needs two passes. */
  lemma NotIdempotent()
    ensures var ps := [Property("endLine", "-1"), Property("col", "2")];
            Normalize(Normalize(ps)) != Normalize(ps)
  {
    hide Normalize;
    var ps := [Property("endLine", "-1"), Property("col", "2")];
    LocationNamesDiffer();
    Symmetric("endLine", "line");
    Symmetric("col", "line");
    assert Value(ps, "line") == None && Value(ps, "endLine") == Some("-1");
    assert Value(ps, "col") == Some("2") && Value(ps, "endColumn") == None;
    assert ParseNumber(Some("-1")) == Some(-1) by { assert Trim("-1") == "-1"; assert "-1"[1..] == "1"; assert ParseDecimal("1") == 1; }
    assert ParseNumber(Some("2")) == Some(2) by { assert Trim("2") == "2"; assert ParseDecimal("2") == 2; }
    IdempotentExactly(ps);
  }
}
