/** Lines of a text, as the splitters of command data and path files see them: ended by carriage returns and line feeds,
    each on its own. */
module TextLines {

  predicate IsBreak(c: char)
  {
    c == '\r' || c == '\n'
  }

  predicate StartsLine(value: string, i: nat)
  {
    i <= |value| && (i == 0 || IsBreak(value[i - 1]))
  }

  /** `line` is the piece of `value` that starts at `i` and runs to the next carriage return or line feed. */
  predicate IsLine(value: string, i: nat, line: string)
  {
    && StartsLine(value, i) && i + |line| <= |value| && value[i..i + |line|] == line
    && (forall j :: 0 <= j < |line| ==> !IsBreak(line[j]))
    && (i + |line| == |value| || IsBreak(value[i + |line|]))
  }

  lemma LineIsUnique(value: string, i: nat, a: string, b: string)
    requires IsLine(value, i, a) && IsLine(value, i, b)
    ensures a == b
  {
    assert forall j :: 0 <= j < |a| ==> a[j] == value[i + j];
    assert forall j :: 0 <= j < |b| ==> b[j] == value[i + j];
  }

  /** A line that starts later starts after the break that ends this one. */
  lemma NextLine(value: string, from: nat, line: string, i: nat, other: string)
    requires IsLine(value, from, line) && IsLine(value, i, other) && from < i
    ensures from + |line| < i
  {
    hide StartsLine;
    NoLineBetween(value, from, line);
  }

  /** No line starts inside another. */
  lemma NoLineBetween(value: string, from: nat, line: string)
    requires IsLine(value, from, line)
    ensures forall i :: from < i <= from + |line| ==> !StartsLine(value, i)
  {
    forall i | from < i <= from + |line|
      ensures !StartsLine(value, i)
    {
      assert line[i - 1 - from] == value[i - 1];
    }
  }
}
