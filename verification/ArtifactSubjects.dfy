/** The artifact subjects of a job: what adding and sorting them keeps, and what a whole history of declarations
    leaves (`apply_completed_step` in crates/automata-ci-actions-runtime/src/phase.rs). */
module ArtifactSubjects {

  import opened Text
  import Utf8
  import opened CompletedSteps

  predicate NameLess(a: Subject, b: Subject)
  {
    NameLeq(a, b) && a.name != b.name
  }

  predicate StrictlySorted(subjects: seq<Subject>)
  {
    forall i, j :: 0 <= i < j < |subjects| ==> NameLess(subjects[i], subjects[j])
  }

  predicate DistinctSubjects(subjects: seq<Subject>)
  {
    forall i, j :: 0 <= i < j < |subjects| ==> subjects[i].name != subjects[j].name
  }

  /** A subject is declared: one of that name and digest is present. */
  predicate Declares(subjects: seq<Subject>, s: Subject)
  {
    exists i :: 0 <= i < |subjects| && subjects[i].name == s.name && subjects[i].digest == s.digest
  }

  lemma AddSubjectKeeps(subjects: seq<Subject>, s: Subject)
    requires DistinctSubjects(subjects) && |subjects| <= MAX_SUBJECTS && AddSubject(subjects, s).Ok?
    ensures var next := AddSubject(subjects, s).value;
            && DistinctSubjects(next) && |next| <= MAX_SUBJECTS && Declares(next, s)
            && subjects <= next && (next == subjects || next == subjects + [s])
  {
    var next := AddSubject(subjects, s).value;
    var k := SubjectAt(subjects, s.name);
    assert next[k].name == s.name && next[k].digest == s.digest;
  }

  /** Adding subjects drops none, adds only those given, and leaves every given one declared. */
  lemma {:induction false} AddSubjectsKeeps(subjects: seq<Subject>, more: seq<Subject>)
    requires DistinctSubjects(subjects) && |subjects| <= MAX_SUBJECTS && AddSubjects(subjects, more).Ok?
    ensures var next := AddSubjects(subjects, more).value;
            && DistinctSubjects(next) && |next| <= MAX_SUBJECTS
            && (forall s :: s in subjects ==> s in next)
            && (forall s :: s in next ==> s in subjects || s in more)
            && (forall s :: s in more ==> Declares(next, s))
    decreases |more|
  {
    hide AddSubject, DistinctSubjects, Declares;
    if more != [] {
      var n := |more| - 1;
      AddSubjectsKeeps(subjects, more[..n]);
      var before := AddSubjects(subjects, more[..n]).value;
      AddSubjectKeeps(before, more[n]);
      var next := AddSubjects(subjects, more).value;
      forall s | s in more
        ensures Declares(next, s)
      {
        if s != more[n] {
          assert s in more[..n];
          DeclaresMore(before, next, s);
        }
      }
      assert forall s :: s in more[..n] ==> s in more;
    }
  }

  lemma DeclaresMore(subjects: seq<Subject>, next: seq<Subject>, s: Subject)
    requires subjects <= next && Declares(subjects, s)
    ensures Declares(next, s)
  {
    var i :| 0 <= i < |subjects| && subjects[i].name == s.name && subjects[i].digest == s.digest;
    assert next[i] == subjects[i];
  }

  /** Declaring what is already declared changes nothing. */
  lemma {:induction false} AddDeclared(subjects: seq<Subject>, more: seq<Subject>)
    requires DistinctSubjects(subjects) && forall i :: 0 <= i < |more| ==> Declares(subjects, more[i])
    ensures AddSubjects(subjects, more) == Ok(subjects)
    decreases |more|
  {
    if more != [] {
      var n := |more| - 1;
      AddDeclared(subjects, more[..n]);
      assert Declares(subjects, more[n]);
    }
  }

  lemma NameOrderTotal(a: Subject, b: Subject)
    ensures NameLeq(a, b) || NameLeq(b, a)
    ensures NameLeq(a, b) && NameLeq(b, a) ==> a.name == b.name
  {
    LexTotal(Utf8.Scalars(a.name), Utf8.Scalars(b.name));
    if NameLeq(a, b) && NameLeq(b, a) {
      forall i | 0 <= i < |a.name|
        ensures i < |b.name| && a.name[i] == b.name[i]
      {
        assert Utf8.Scalars(a.name)[i] == Utf8.Scalars(b.name)[i];
      }
      assert |Utf8.Scalars(a.name)| == |Utf8.Scalars(b.name)|;
      assert a.name == b.name;
    }
  }

  predicate Sorted(subjects: seq<Subject>)
  {
    forall i, j :: 0 <= i < j < |subjects| ==> NameLeq(subjects[i], subjects[j])
  }

  lemma SortedSnoc(a: seq<Subject>, s: Subject)
    requires (a == [] || Sorted(a)) && forall i :: 0 <= i < |a| ==> NameLeq(a[i], s)
    ensures Sorted(a + [s])
  {
    hide NameLeq;
  }

  lemma SortedFront(a: seq<Subject>)
    requires Sorted(a) && a != []
    ensures Sorted(a[..|a| - 1]) && forall i :: 0 <= i < |a| - 1 ==> NameLeq(a[i], a[|a| - 1])
  {
    hide NameLeq;
  }

  lemma {:induction false} InsertMembers(sorted: seq<Subject>, s: Subject)
    ensures multiset(InsertSubject(sorted, s)) == multiset(sorted) + multiset{s}
    decreases |sorted|
  {
    hide NameLeq;
    if sorted != [] {
      var front, last := sorted[..|sorted| - 1], sorted[|sorted| - 1];
      assert sorted == front + [last];
      InsertMembers(front, s);
    }
  }

  /** Inserting keeps an upper bound. */
  lemma {:induction false} InsertBelow(sorted: seq<Subject>, s: Subject, top: Subject)
    requires NameLeq(s, top) && forall i :: 0 <= i < |sorted| ==> NameLeq(sorted[i], top)
    ensures forall i :: 0 <= i < |InsertSubject(sorted, s)| ==> NameLeq(InsertSubject(sorted, s)[i], top)
    decreases |sorted|
  {
    hide NameLeq;
    if sorted != [] { InsertBelow(sorted[..|sorted| - 1], s, top); }
  }

  lemma {:induction false} InsertSorted(sorted: seq<Subject>, s: Subject)
    requires Sorted(sorted)
    ensures Sorted(InsertSubject(sorted, s)) && multiset(InsertSubject(sorted, s)) == multiset(sorted) + multiset{s}
    decreases |sorted|
  {
    hide NameLeq, Sorted;
    InsertMembers(sorted, s);
    if sorted == [] {
      assert [s] == [] + [s];
      SortedSnoc([], s);
    } else {
      var front, last := sorted[..|sorted| - 1], sorted[|sorted| - 1];
      assert sorted == front + [last];
      SortedFront(sorted);
      NameOrderTotal(last, s);
      if NameLeq(last, s) {
        forall i | 0 <= i < |sorted|
          ensures NameLeq(sorted[i], s)
        {
          if i < |front| { NameTransitive(sorted[i], last, s); }
        }
        SortedSnoc(sorted, s);
      } else {
        InsertSorted(front, s);
        InsertBelow(front, s, last);
        SortedSnoc(InsertSubject(front, s), last);
      }
    }
  }

  lemma NameTransitive(a: Subject, b: Subject, c: Subject)
    requires NameLeq(a, b) && NameLeq(b, c)
    ensures NameLeq(a, c)
  {
    LexTransitive(Utf8.Scalars(a.name), Utf8.Scalars(b.name), Utf8.Scalars(c.name));
  }

  /** The sort is a sorted permutation. */
  lemma {:induction false} SortIsSorted(subjects: seq<Subject>)
    ensures Sorted(SortSubjects(subjects)) && multiset(SortSubjects(subjects)) == multiset(subjects)
    decreases |subjects|
  {
    hide InsertSubject, NameLeq;
    if subjects != [] {
      var n := |subjects| - 1;
      SortIsSorted(subjects[..n]);
      InsertSorted(SortSubjects(subjects[..n]), subjects[n]);
      assert subjects == subjects[..n] + [subjects[n]];
    }
  }

  lemma {:induction false} SortOfSorted(subjects: seq<Subject>)
    requires StrictlySorted(subjects)
    ensures SortSubjects(subjects) == subjects
    decreases |subjects|
  {
    hide NameLeq;
    if subjects != [] {
      var n := |subjects| - 1;
      SortOfSorted(subjects[..n]);
      assert n > 0 ==> NameLess(subjects[n - 1], subjects[n]);
      assert subjects == subjects[..n] + [subjects[n]];
    }
  }

  lemma MultisetNoRepeatedName(a: seq<Subject>, b: seq<Subject>)
    requires multiset(a) == multiset(b) && DistinctSubjects(a)
    ensures DistinctSubjects(b)
  {
    forall i, j | 0 <= i < j < |b|
      ensures b[i].name != b[j].name
    {
      if b[i].name == b[j].name {
        assert b[i] in multiset(b) && b[j] in multiset(b);
        var k :| 0 <= k < |a| && a[k] == b[i];
        var l :| 0 <= l < |a| && a[l] == b[j];
        assert k == l;
        CountTwice(b, i, j);
        CountOnce(a, k);
      }
    }
  }

  lemma CountOnce(s: seq<Subject>, k: nat)
    requires k < |s| && DistinctSubjects(s)
    ensures multiset(s)[s[k]] == 1
  {
    var a, b := s[..k], s[k + 1..];
    assert s == a + [s[k]] + b;
    assert s[k] !in a && s[k] !in b;
    assert s[k] !in multiset(a) && s[k] !in multiset(b);
  }

  lemma SortedDistinctIsStrict(subjects: seq<Subject>)
    requires Sorted(subjects) && DistinctSubjects(subjects)
    ensures StrictlySorted(subjects)
  {
  }

  lemma StrictIsDistinct(subjects: seq<Subject>)
    requires StrictlySorted(subjects)
    ensures DistinctSubjects(subjects)
  {
  }

  lemma DeclaresPermuted(a: seq<Subject>, b: seq<Subject>, s: Subject)
    requires multiset(a) == multiset(b) && Declares(a, s)
    ensures Declares(b, s)
  {
    var i :| 0 <= i < |a| && a[i].name == s.name && a[i].digest == s.digest;
    assert a[i] in multiset(b);
    var j :| 0 <= j < |b| && b[j] == a[i];
  }

  // ----- Sorted lists are unique -----

  lemma LastIsGreatest(a: seq<Subject>, x: Subject)
    requires StrictlySorted(a) && x in a
    ensures x == a[|a| - 1] || NameLess(x, a[|a| - 1])
  {
    hide NameLess;
    var i :| 0 <= i < |a| && a[i] == x;
  }

  lemma LastsAgree(a: seq<Subject>, b: seq<Subject>)
    requires StrictlySorted(a) && StrictlySorted(b) && multiset(a) == multiset(b) && a != [] && b != []
    ensures a[|a| - 1] == b[|b| - 1]
  {
    hide NameLess, StrictlySorted;
    var x, y := a[|a| - 1], b[|b| - 1];
    assert x in multiset(b) && y in multiset(a);
    LastIsGreatest(b, x);
    LastIsGreatest(a, y);
    LessIsAsymmetric(x, y);
  }

  lemma WithoutLast(a: seq<Subject>)
    requires a != []
    ensures multiset(a[..|a| - 1]) == multiset(a) - multiset{a[|a| - 1]}
  {
    assert a == a[..|a| - 1] + [a[|a| - 1]];
  }

  lemma {:induction false} StrictlySortedIsUnique(a: seq<Subject>, b: seq<Subject>)
    requires StrictlySorted(a) && StrictlySorted(b) && multiset(a) == multiset(b)
    ensures a == b
    decreases |a|
  {
    hide NameLess, StrictlySorted;
    assert |a| == |multiset(a)| == |multiset(b)| == |b|;
    if a != [] {
      var n := |a| - 1;
      LastsAgree(a, b);
      WithoutLast(a);
      WithoutLast(b);
      StrictPrefix(a, n);
      StrictPrefix(b, n);
      StrictlySortedIsUnique(a[..n], b[..n]);
      assert a == a[..n] + [a[n]] && b == b[..n] + [b[n]];
    }
  }

  lemma LessIsAsymmetric(x: Subject, y: Subject)
    ensures !(NameLess(x, y) && NameLess(y, x))
  {
    NameOrderTotal(x, y);
  }

  lemma StrictPrefix(a: seq<Subject>, n: nat)
    requires StrictlySorted(a) && n <= |a|
    ensures StrictlySorted(a[..n])
  {
    hide NameLess;
  }

  /** Sorting depends on the members only. */
  lemma SortIsCanonical(a: seq<Subject>, b: seq<Subject>)
    requires DistinctSubjects(a) && multiset(a) == multiset(b)
    ensures SortSubjects(a) == SortSubjects(b)
  {
    hide SortSubjects, StrictlySorted, Sorted;
    MultisetNoRepeatedName(a, b);
    SortIsStrict(a);
    SortIsStrict(b);
    StrictlySortedIsUnique(SortSubjects(a), SortSubjects(b));
  }

  lemma SortIsStrict(a: seq<Subject>)
    requires DistinctSubjects(a)
    ensures StrictlySorted(SortSubjects(a)) && multiset(SortSubjects(a)) == multiset(a)
    ensures DistinctSubjects(SortSubjects(a))
  {
    hide SortSubjects, StrictlySorted, Sorted;
    SortIsSorted(a);
    MultisetNoRepeatedName(a, SortSubjects(a));
    SortedDistinctIsStrict(SortSubjects(a));
  }

  /** The subjects after a step: sorted, none dropped, none invented, and fixed under replay. */
  lemma SubjectsAfter(subjects: seq<Subject>, more: seq<Subject>)
    requires StrictlySorted(subjects) && |subjects| <= MAX_SUBJECTS && AddSubjects(subjects, more).Ok?
    ensures var next := SortSubjects(AddSubjects(subjects, more).value);
            && StrictlySorted(next) && |next| <= MAX_SUBJECTS
            && (forall s :: s in subjects ==> s in next)
            && (forall s :: s in next ==> s in subjects || s in more)
            && AddSubjects(next, more) == Ok(next) && SortSubjects(next) == next
  {
    hide AddSubjects, SortSubjects, NameLeq, Declares;
    StrictIsDistinct(subjects);
    AddSubjectsKeeps(subjects, more);
    var added := AddSubjects(subjects, more).value;
    var next := SortSubjects(added);
    SortIsSorted(added);
    MultisetNoRepeatedName(added, next);
    SortedDistinctIsStrict(next);
    assert forall s :: s in added <==> s in multiset(added);
    assert forall s :: s in next <==> s in multiset(next);
    forall i | 0 <= i < |more|
      ensures Declares(next, more[i])
    {
      DeclaresPermuted(added, next, more[i]);
    }
    AddDeclared(next, more);
    SortOfSorted(next);
  }

  // ----- Whole histories of declarations -----

  /** The declarations whose name no earlier one has, in order. */
  function Firsts(ds: seq<Subject>): seq<Subject>
  {
    if ds == [] then [] else
      var front, last := ds[..|ds| - 1], ds[|ds| - 1];
      Firsts(front) + if SubjectAt(front, last.name) < |front| then [] else [last]
  }

  /** One of the declarations is the subject, and none before it has its name. */
  predicate FirstDeclared(ds: seq<Subject>, x: Subject)
  {
    exists i :: 0 <= i < |ds| && ds[i] == x && SubjectAt(ds, x.name) == i
  }

  lemma SubjectAtSnoc(ds: seq<Subject>, d: Subject, name: string)
    ensures SubjectAt(ds + [d], name) ==
              if SubjectAt(ds, name) < |ds| then SubjectAt(ds, name) else if d.name == name then |ds| else |ds| + 1
  {
    hide SubjectAt;
    var all := ds + [d];
    var j, k := SubjectAt(all, name), SubjectAt(ds, name);
    assert (forall i :: 0 <= i < |ds| ==> all[i] == ds[i]) && all[|ds|] == d;
    assert k < |ds| ==> all[k].name == name;
    assert k == |ds| ==> j >= |ds|;
  }

  lemma FirstDeclaredSnoc(ds: seq<Subject>, d: Subject, x: Subject)
    ensures FirstDeclared(ds + [d], x) <==> FirstDeclared(ds, x) || (x == d && SubjectAt(ds, d.name) == |ds|)
  {
    hide SubjectAt;
    var all := ds + [d];
    SubjectAtSnoc(ds, d, x.name);
    assert (forall i :: 0 <= i < |ds| ==> all[i] == ds[i]) && all[|ds|] == d;
    var k := SubjectAt(ds, x.name);
    if k < |ds| {
      assert FirstDeclared(all, x) <==> all[k] == x;
      assert FirstDeclared(ds, x) <==> ds[k] == x;
    } else {
      assert FirstDeclared(all, x) <==> x == d;
    }
  }

  /** Exactly the first declarations of their names are among them. */
  lemma {:induction false} FirstsExactly(ds: seq<Subject>, x: Subject)
    ensures x in Firsts(ds) <==> FirstDeclared(ds, x)
    decreases |ds|
  {
    hide FirstDeclared, SubjectAt;
    if ds == [] {
      NothingDeclared(x);
    } else {
      var front, last := ds[..|ds| - 1], ds[|ds| - 1];
      assert ds == front + [last];
      FirstsExactly(front, x);
      FirstDeclaredSnoc(front, last, x);
    }
  }

  lemma NothingDeclared(x: Subject)
    ensures !FirstDeclared([], x)
  {
  }

  predicate Names(subjects: seq<Subject>, name: string)
  {
    SubjectAt(subjects, name) < |subjects|
  }

  lemma NamesSnoc(ds: seq<Subject>, d: Subject, name: string)
    ensures Names(ds + [d], name) <==> Names(ds, name) || d.name == name
  {
    hide SubjectAt;
    SubjectAtSnoc(ds, d, name);
  }

  lemma {:induction false} FirstsName(ds: seq<Subject>, name: string)
    ensures Names(Firsts(ds), name) <==> Names(ds, name)
    decreases |ds|
  {
    hide SubjectAt;
    if ds != [] {
      var front, last := ds[..|ds| - 1], ds[|ds| - 1];
      assert ds == front + [last];
      FirstsName(front, name);
      NamesSnoc(front, last, name);
      NamesSnoc(Firsts(front), last, name);
      assert Firsts(front) + [] == Firsts(front);
    }
  }

  lemma {:induction false} FirstsAreDistinct(ds: seq<Subject>)
    ensures DistinctSubjects(Firsts(ds))
    decreases |ds|
  {
    hide SubjectAt;
    if ds != [] {
      var front, last := ds[..|ds| - 1], ds[|ds| - 1];
      FirstsAreDistinct(front);
      FirstsName(front, last.name);
    }
  }

  /** No two declarations give one name two digests. */
  predicate Compatible(ds: seq<Subject>)
  {
    forall i, j :: 0 <= i < j < |ds| && ds[i].name == ds[j].name ==> ds[i].digest == ds[j].digest
  }

  predicate Agrees(ds: seq<Subject>, d: Subject)
  {
    forall i :: 0 <= i < |ds| && ds[i].name == d.name ==> ds[i].digest == d.digest
  }

  lemma CompatibleSnoc(ds: seq<Subject>, d: Subject)
    ensures Compatible(ds + [d]) <==> Compatible(ds) && Agrees(ds, d)
  {
    var all := ds + [d];
    assert (forall i :: 0 <= i < |ds| ==> all[i] == ds[i]) && all[|ds|] == d;
  }

  /** With compatible declarations the first one speaks for all. */
  lemma FirstSpeaks(ds: seq<Subject>, d: Subject)
    requires Compatible(ds)
    ensures var k := SubjectAt(ds, d.name); Agrees(ds, d) <==> k == |ds| || ds[k].digest == d.digest
  {
    var k := SubjectAt(ds, d.name);
    assert k < |ds| ==> ds[k].name == d.name;
    assert forall i :: 0 <= i < k ==> ds[i].name != d.name;
    hide SubjectAt;
    if k < |ds| && ds[k].digest == d.digest {
      forall i | 0 <= i < |ds| && ds[i].name == d.name
        ensures ds[i].digest == d.digest
      {
        if k < i { SameDigest(ds, k, i); }
      }
    }
  }

  lemma SameDigest(ds: seq<Subject>, i: nat, j: nat)
    requires Compatible(ds) && i < j < |ds| && ds[i].name == ds[j].name
    ensures ds[i].digest == ds[j].digest
  {
  }

  lemma FirstsKeepDigest(ds: seq<Subject>, name: string)
    requires Names(ds, name)
    ensures Names(Firsts(ds), name) && Firsts(ds)[SubjectAt(Firsts(ds), name)] == ds[SubjectAt(ds, name)]
  {
    hide SubjectAt;
    var x := ds[SubjectAt(ds, name)];
    assert FirstDeclared(ds, x);
    FirstsExactly(ds, x);
    FirstsAreDistinct(ds);
    FirstsName(ds, name);
    var fs := Firsts(ds);
    var i :| 0 <= i < |fs| && fs[i] == x;
    var k := SubjectAt(fs, name);
    assert k <= i;
  }

  lemma {:induction false} FirstsLonger(ds: seq<Subject>, n: nat)
    requires n <= |ds|
    ensures |Firsts(ds[..n])| <= |Firsts(ds)|
    decreases |ds|
  {
    hide SubjectAt;
    if n < |ds| {
      assert ds[..|ds| - 1][..n] == ds[..n];
      FirstsLonger(ds[..|ds| - 1], n);
    } else {
      assert ds[..n] == ds;
    }
  }

  /** Declaring a whole list succeeds exactly when it is compatible and has at most 500 names, and then leaves the
      first declarations. */
  lemma {:induction false} DeclareAllExactly(ds: seq<Subject>)
    ensures AddSubjects([], ds).Ok? <==> Compatible(ds) && |Firsts(ds)| <= MAX_SUBJECTS
    ensures AddSubjects([], ds).Ok? ==> AddSubjects([], ds).value == Firsts(ds)
    decreases |ds|
  {
    hide SubjectAt, Agrees, Compatible;
    if ds == [] {
      NothingConflicts();
    } else {
      var front, last := ds[..|ds| - 1], ds[|ds| - 1];
      assert ds == front + [last];
      DeclareAllExactly(front);
      CompatibleSnoc(front, last);
      FirstsLonger(ds, |front|);
      if Compatible(front) {
        FirstSpeaks(front, last);
        FirstsName(front, last.name);
        if Names(front, last.name) { FirstsKeepDigest(front, last.name); }
        assert Firsts(front) + [] == Firsts(front);
      }
    }
  }

  lemma NothingConflicts()
    ensures Compatible([]) && Firsts([]) == []
  {
  }

  lemma {:induction false} AddSubjectsConcat(base: seq<Subject>, a: seq<Subject>, b: seq<Subject>)
    requires AddSubjects(base, a).Ok?
    ensures AddSubjects(base, a + b) == AddSubjects(AddSubjects(base, a).value, b)
    decreases |b|
  {
    hide AddSubject;
    if b == [] {
      assert a + b == a;
    } else {
      assert (a + b)[..|a + b| - 1] == a + b[..|b| - 1];
      AddSubjectsConcat(base, a, b[..|b| - 1]);
    }
  }

  lemma PermutedHasName(a: seq<Subject>, b: seq<Subject>, name: string)
    requires multiset(a) == multiset(b) && Names(a, name)
    ensures Names(b, name) && a[SubjectAt(a, name)] in b
  {
    var x := a[SubjectAt(a, name)];
    assert x.name == name && x in multiset(b);
    var k :| 0 <= k < |b| && b[k] == x;
    assert SubjectAt(b, name) <= k;
  }

  lemma AddSubjectPermuted(a: seq<Subject>, b: seq<Subject>, s: Subject)
    requires DistinctSubjects(a) && multiset(a) == multiset(b) && |a| == |b|
    ensures AddSubject(a, s).Ok? <==> AddSubject(b, s).Ok?
    ensures AddSubject(a, s).Ok? ==> multiset(AddSubject(a, s).value) == multiset(AddSubject(b, s).value)
  {
    hide SubjectAt;
    MultisetNoRepeatedName(a, b);
    if Names(b, s.name) { PermutedHasName(b, a, s.name); }
    if Names(a, s.name) {
      PermutedHasName(a, b, s.name);
      var i, j := SubjectAt(a, s.name), SubjectAt(b, s.name);
      var k :| 0 <= k < |b| && b[k] == a[i];
      assert k == j;
    }
  }

  /** Adding depends on the members of the list only, not on their order. */
  lemma {:induction false} AddSubjectsPermuted(a: seq<Subject>, b: seq<Subject>, more: seq<Subject>)
    requires DistinctSubjects(a) && |a| <= MAX_SUBJECTS && multiset(a) == multiset(b)
    ensures AddSubjects(a, more).Ok? <==> AddSubjects(b, more).Ok?
    ensures AddSubjects(a, more).Ok? ==> multiset(AddSubjects(a, more).value) == multiset(AddSubjects(b, more).value)
    decreases |more|
  {
    hide AddSubject;
    if more != [] {
      var front, last := more[..|more| - 1], more[|more| - 1];
      AddSubjectsPermuted(a, b, front);
      if AddSubjects(a, front).Ok? {
        AddSubjectsKeeps(a, front);
        var x, y := AddSubjects(a, front).value, AddSubjects(b, front).value;
        assert |x| == |multiset(x)| == |multiset(y)| == |y|;
        AddSubjectPermuted(x, y, last);
      }
    }
  }

  /** One more step on top of a history: its declarations are accepted exactly when the longer history is, and the
      sorted list is that of the longer history. */
  lemma DeclareMore(ds: seq<Subject>, more: seq<Subject>)
    requires Compatible(ds) && |Firsts(ds)| <= MAX_SUBJECTS
    ensures var next := AddSubjects(SortSubjects(Firsts(ds)), more);
            && (next.Ok? <==> Compatible(ds + more) && |Firsts(ds + more)| <= MAX_SUBJECTS)
            && (next.Ok? ==> SortSubjects(next.value) == SortSubjects(Firsts(ds + more)))
  {
    hide AddSubjects, SortSubjects, Firsts, Compatible;
    var fs := Firsts(ds);
    FirstsAreDistinct(ds);
    SortIsStrict(fs);
    DeclareAllExactly(ds);
    DeclareAllExactly(ds + more);
    AddSubjectsConcat([], ds, more);
    AddSubjectsPermuted(fs, SortSubjects(fs), more);
    if AddSubjects(fs, more).Ok? {
      FirstsAreDistinct(ds + more);
      SortIsCanonical(AddSubjects(fs, more).value, AddSubjects(SortSubjects(fs), more).value);
    }
  }
}
