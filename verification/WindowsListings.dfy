/** Which archive listings Windows can take, stated on the tree they list (crates/automata-ci-action/src/archive.rs). */
module WindowsListings {

  import opened Text
  import opened WindowsNamespace

  // ----- Names -----

  const FORBIDDEN := ['<', '>', ':', '"', '|', '?', '*']

  const DEVICES := ["CON", "PRN", "AUX", "NUL", "CLOCK$", "CONIN$", "CONOUT$"]

  predicate IsSpaces(s: string)
  {
    forall i :: 0 <= i < |s| ==> s[i] == ' '
  }

  /** The part of a name before its first dot, without trailing spaces. */
  predicate IsStem(name: string, stem: string)
  {
    && stem <= name && '.' !in stem && (stem == "" || stem[|stem| - 1] != ' ')
    && exists k :: |stem| <= k <= |name| && IsSpaces(name[|stem|..k]) && (k == |name| || name[k] == '.')
  }

  /** A device: one of seven, or a serial or parallel port, in any case. */
  predicate IsDevice(stem: string)
  {
    || (exists i :: 0 <= i < |DEVICES| && SameLetters(stem, DEVICES[i]))
    || (|stem| == 4 && (SameLetters(stem[..3], "COM") || SameLetters(stem[..3], "LPT")) && '1' <= stem[3] <= '9')
  }

  /** A generated short name: up to six characters, a tilde and a number. */
  ghost predicate IsShortName(stem: string)
  {
    exists base, number :: IsShortForm(stem, base, number)
  }

  predicate IsShortForm(stem: string, base: string, number: string)
  {
    && stem == base + "~" + number && 1 <= |base| <= 6 && number != "" && number[0] != '0'
    && forall i :: 0 <= i < |number| ==> IsDigit(number[i])
  }

  ghost predicate IsWindowsName(name: string)
  {
    && name != "" && name[|name| - 1] != ' ' && name[|name| - 1] != '.'
    && (forall i :: 0 <= i < |name| ==> 0x20 <= name[i] as int <= 0x7E && name[i] !in FORBIDDEN)
    && (name[0] == '.' || exists stem :: IsStem(name, stem) && stem != "" && !IsDevice(stem) && !IsShortName(stem))
  }

  lemma {:induction false} TrimmedExactly(s: string)
    requires '.' !in s
    ensures var n := TrimmedLength(s); IsSpaces(s[n..]) && (n == 0 || s[n - 1] != ' ')
  {
    if s != "" && s[|s| - 1] == ' ' {
      var front := s[..|s| - 1];
      TrimmedExactly(front);
      var n := TrimmedLength(s);
      assert s[n..] == front[n..] + [' '];
    }
  }

  /** The validator looks at exactly the stem. */
  lemma StemExactly(name: string, stem: string)
    ensures var dotted := name[..IndexOf(name, '.')];
            IsStem(name, stem) <==> stem == dotted[..TrimmedLength(dotted)]
  {
    var d := IndexOf(name, '.');
    var dotted := name[..d];
    var n := TrimmedLength(dotted);
    TrimmedExactly(dotted);
    assert name[n..d] == dotted[n..];
    assert IsSpaces(name[n..d]);
    if IsStem(name, stem) {
      var k :| |stem| <= k <= |name| && IsSpaces(name[|stem|..k]) && (k == |name| || name[k] == '.');
      StemEndsAtDot(name, stem, k);
      SameStem(name, |stem|, n, d);
    }
  }

  lemma StemEndsAtDot(name: string, stem: string, k: nat)
    requires stem <= name && '.' !in stem && |stem| <= k <= |name| && IsSpaces(name[|stem|..k]) && (k == |name| || name[k] == '.')
    ensures k == IndexOf(name, '.')
  {
    forall i | 0 <= i < k
      ensures name[i] != '.'
    {
      if i < |stem| {
        assert name[i] == stem[i];
      } else {
        assert name[|stem|..k][i - |stem|] == name[i];
      }
    }
  }

  lemma SameStem(name: string, a: nat, b: nat, d: nat)
    requires a <= d <= |name| && b <= d && IsSpaces(name[a..d]) && IsSpaces(name[b..d])
    requires (a == 0 || name[a - 1] != ' ') && (b == 0 || name[b - 1] != ' ')
    ensures a == b
  {
    forall i | a <= i < d
      ensures name[i] == ' '
    {
      assert name[a..d][i - a] == name[i];
    }
    forall i | b <= i < d
      ensures name[i] == ' '
    {
      assert name[b..d][i - b] == name[i];
    }
  }

  lemma {:induction false} LastTildeExactly(s: string)
    ensures var n := LastTilde(s);
            (n >= 0 ==> s[n] == '~') && forall i :: n < i < |s| ==> s[i] != '~'
  {
    if s != "" && s[|s| - 1] != '~' {
      LastTildeExactly(s[..|s| - 1]);
    }
  }

  lemma ShapedIsShort(stem: string)
    requires ShortNameShaped(stem)
    ensures IsShortName(stem)
  {
    hide LastTilde;
    var n := LastTilde(stem);
    LastTildeExactly(stem);
    var base, number := stem[..n], stem[n + 1..];
    assert stem == base + "~" + number;
    assert forall i :: 0 <= i < |number| ==> number[i] == stem[n + 1 + i];
    assert IsShortForm(stem, base, number);
  }

  lemma ShortIsShaped(stem: string, base: string, number: string)
    requires IsShortForm(stem, base, number)
    ensures ShortNameShaped(stem)
  {
    hide LastTilde;
    LastTildeExactly(stem);
    assert stem[|base|] == '~' && forall i :: 0 <= i < |number| ==> stem[|base| + 1 + i] == number[i];
    assert LastTilde(stem) == |base|;
  }

  lemma ShortNameExactly(stem: string)
    ensures ShortNameShaped(stem) <==> IsShortName(stem)
  {
    hide ShortNameShaped, IsShortForm;
    if ShortNameShaped(stem) { ShapedIsShort(stem); }
    if base, number :| IsShortForm(stem, base, number) {
      ShortIsShaped(stem, base, number);
    }
  }

  lemma DevicesAreLower()
    ensures Lower("CON") == "con" && Lower("PRN") == "prn" && Lower("AUX") == "aux" && Lower("NUL") == "nul"
    ensures Lower("CLOCK$") == "clock$" && Lower("CONIN$") == "conin$" && Lower("CONOUT$") == "conout$"
    ensures Lower("COM") == "com" && Lower("LPT") == "lpt"
  {
  }

  lemma DeviceExactly(stem: string)
    ensures IsDevice(stem) <==>
              var lower := Lower(stem);
              || lower in ["con", "prn", "aux", "nul", "clock$", "conin$", "conout$"]
              || (|lower| == 4 && lower[..3] in ["com", "lpt"] && '1' <= lower[3] <= '9')
  {
    hide SameLetters;
    DevicesAreLower();
    forall i | 0 <= i < |DEVICES|
      ensures SameLetters(stem, DEVICES[i]) <==> Lower(stem) == Lower(DEVICES[i])
    {
      EqIgnoreCaseExactly(stem, DEVICES[i]);
    }
    var devices := ["con", "prn", "aux", "nul", "clock$", "conin$", "conout$"];
    assert forall i :: 0 <= i < |DEVICES| ==> Lower(DEVICES[i]) == devices[i];
    if |stem| == 4 {
      EqIgnoreCaseExactly(stem[..3], "COM");
      EqIgnoreCaseExactly(stem[..3], "LPT");
      assert Lower(stem)[..3] == Lower(stem[..3]);
    }
  }

  lemma ValidStemExactly(dotted: string)
    ensures var stem := dotted[..TrimmedLength(dotted)];
            ValidStem(dotted) <==> stem != "" && !IsDevice(stem) && !IsShortName(stem)
  {
    hide IsDevice, IsShortName, ShortNameShaped, TrimmedLength, Lower;
    var stem := dotted[..TrimmedLength(dotted)];
    ShortNameExactly(stem);
    DeviceExactly(stem);
  }

  /** The names the validator lets through. */
  lemma WindowsNameExactly(name: string)
    ensures ValidWindowsComponent(name) <==> IsWindowsName(name)
  {
    hide IsStem, IsDevice, IsShortName, ValidStem, TrimmedLength, IndexOf;
    if name != "" {
      var dotted := name[..IndexOf(name, '.')];
      var stem := dotted[..TrimmedLength(dotted)];
      ValidStemExactly(dotted);
      StemExactly(name, stem);
      forall other | IsStem(name, other)
        ensures other == stem
      {
        StemExactly(name, other);
      }
    }
  }

  // ----- Listings -----

  /** How a listing writes an entry of the tree below `root`: slashes between components, and perhaps one at the end. */
  predicate Renders(m: Member, root: string, e: Entry)
  {
    && m.isDirectory == e.isDirectory
    && (m.raw == Join([root] + e.path, '/') || m.raw == Join([root] + e.path, '/') + "/")
  }

  ghost predicate NamesFit(root: string, e: Entry)
  {
    var p := [root] + e.path;
    forall i :: 0 <= i < |p| ==> IsWindowsName(p[i]) && '/' !in p[i] && '\\' !in p[i]
  }

  /** Such names are components of a clean relative path. */
  lemma NamesAreProper(name: string)
    requires IsWindowsName(name)
    ensures ProperComponent(name) <==> '/' !in name && '\\' !in name
  {
    hide IsStem, IsDevice, IsShortName;
  }

  lemma FittingNamesAreProper(root: string, e: Entry)
    requires NamesFit(root, e)
    ensures ProperPath([root] + e.path)
  {
    hide IsWindowsName, ProperComponent;
    var p := [root] + e.path;
    forall i | 0 <= i < |p|
      ensures ProperComponent(p[i])
    {
      NamesAreProper(p[i]);
    }
  }

  ghost predicate Lists(listing: seq<Member>, root: string, entries: seq<Entry>, limits: Limits)
  {
    && |entries| == |listing| <= limits.maximumEntries
    && forall i :: 0 <= i < |listing| ==>
         Renders(listing[i], root, entries[i]) && NamesFit(root, entries[i]) && |listing[i].raw| <= limits.maximumPathBytes
  }

  lemma RenderedParses(m: Member, root: string, e: Entry)
    requires NamesFit(root, e)
    ensures Renders(m, root, e) <==>
              ArchiveComponents(m.raw) == Ok([root] + e.path) && m.isDirectory == e.isDirectory
  {
    hide ArchiveComponents, NamesFit, ProperPath;
    FittingNamesAreProper(root, e);
    ArchiveComponentsExact(m.raw, [root] + e.path);
  }

  lemma RenderedMember(m: Member, root: string, e: Entry, limits: Limits)
    requires Renders(m, root, e) && NamesFit(root, e) && |m.raw| <= limits.maximumPathBytes
    ensures ValidMember(m, limits) && RootOf(m) == root && RelativeOf(m) == e
  {
    hide ArchiveComponents, IsWindowsName, ValidWindowsComponent, Renders;
    RenderedParses(m, root, e);
    var p := [root] + e.path;
    assert p[0] == root && p[1..] == e.path;
    forall i | 0 <= i < |p|
      ensures ValidWindowsComponent(p[i])
    {
      WindowsNameExactly(p[i]);
    }
  }

  lemma ValidMemberRenders(m: Member, limits: Limits)
    requires ValidMember(m, limits)
    ensures Renders(m, RootOf(m), RelativeOf(m)) && NamesFit(RootOf(m), RelativeOf(m)) && |m.raw| <= limits.maximumPathBytes
  {
    hide ArchiveComponents, IsWindowsName, ValidWindowsComponent, Join;
    var p := ArchiveComponents(m.raw).value;
    ArchiveComponentsExact(m.raw, p);
    assert p == [p[0]] + p[1..];
    forall i | 0 <= i < |p|
      ensures IsWindowsName(p[i]) && '/' !in p[i] && '\\' !in p[i]
    {
      WindowsNameExactly(p[i]);
      assert ProperComponent(p[i]);
      NamesAreProper(p[i]);
    }
  }

  /** A listing is taken exactly when it writes out, under one root and with names Windows can have, the entries of one
      unambiguous tree, within the limits. */
  lemma MaterializableExactly(listing: seq<Member>, limits: Limits)
    ensures Materializable(listing, limits) <==>
              exists root, entries ::
                Lists(listing, root, entries, limits) && Unambiguous(multiset(entries), limits.maximumIndexBytes)
  {
    hide ValidMember, RootOf, RelativeOf, Renders, NamesFit, Unambiguous;
    if Materializable(listing, limits) {
      var root := if listing == [] then "" else RootOf(listing[0]);
      forall i | 0 <= i < |listing|
        ensures Renders(listing[i], root, Relatives(listing)[i]) && NamesFit(root, Relatives(listing)[i])
        ensures |listing[i].raw| <= limits.maximumPathBytes
      {
        assert listing[i] in listing && listing[0] in listing;
        ValidMemberRenders(listing[i], limits);
      }
      assert Lists(listing, root, Relatives(listing), limits);
    }
    if root, entries :| Lists(listing, root, entries, limits) && Unambiguous(multiset(entries), limits.maximumIndexBytes) {
      forall i | 0 <= i < |listing|
        ensures ValidMember(listing[i], limits) && RootOf(listing[i]) == root && RelativeOf(listing[i]) == entries[i]
      {
        RenderedMember(listing[i], root, entries[i], limits);
      }
      assert Relatives(listing) == entries;
    }
  }
}
