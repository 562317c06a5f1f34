/** How `start_benchmark` turns a directory listing into a session's ordered
    list of test cases: keep the names that do not end in `.solution`, in
    listing order, then `list.sort()` them by Python's string order. */
module Names {
  import opened Text

  const SolutionSuffix: string := ".solution"

  /** Python's `a <= b` on `str`: lexicographic by code point, a proper prefix
      coming first. */
  predicate Below(a: string, b: string)
    decreases |a|
  {
    a == [] || (b != [] && (a[0] < b[0] || (a[0] == b[0] && Below(a[1..], b[1..]))))
  }

  lemma {:induction false} BelowTotal(a: string, b: string)
    ensures Below(a, b) || Below(b, a)
    decreases |a|
  {
    if a != [] && b != [] && a[0] == b[0] {
      BelowTotal(a[1..], b[1..]);
    }
  }

  lemma {:induction false} BelowReflexive(a: string)
    ensures Below(a, a)
    decreases |a|
  {
    if a != [] {
      BelowReflexive(a[1..]);
    }
  }

  lemma {:induction false} BelowAntisymmetric(a: string, b: string)
    requires Below(a, b) && Below(b, a)
    ensures a == b
    decreases |a|
  {
    if a != [] {
      BelowAntisymmetric(a[1..], b[1..]);
      assert a == [a[0]] + a[1..] && b == [b[0]] + b[1..];
    }
  }

  lemma {:induction false} BelowTransitive(a: string, b: string, c: string)
    requires Below(a, b) && Below(b, c)
    ensures Below(a, c)
    decreases |a|
  {
    if a != [] && a[0] == b[0] && b[0] == c[0] {
      BelowTransitive(a[1..], b[1..], c[1..]);
    }
  }

  predicate Sorted(s: seq<string>) {
    forall i, j | 0 <= i < j < |s| :: Below(s[i], s[j])
  }

  predicate NoDup(s: seq<string>) {
    forall i, j | 0 <= i < j < |s| :: s[i] != s[j]
  }

  /** Inserting into a sorted list, before the first element not below `x`. */
  function Insert(x: string, s: seq<string>): (r: seq<string>)
    requires Sorted(s)
    ensures Sorted(r)
    ensures multiset(r) == multiset(s) + multiset{x}
  {
    if s == [] then [x]
    else if Below(x, s[0]) then
      InsertFront(x, s);
      [x] + s
    else
      var rest := Insert(x, s[1..]);
      InsertBehind(x, s, rest);
      [s[0]] + rest
  }

  lemma InsertFront(x: string, s: seq<string>)
    requires Sorted(s) && s != [] && Below(x, s[0])
    ensures Sorted([x] + s)
  {
    forall j | 0 < j < |s| ensures Below(x, s[j]) {
      BelowTransitive(x, s[0], s[j]);
    }
  }

  lemma InsertBehind(x: string, s: seq<string>, rest: seq<string>)
    requires Sorted(s) && s != [] && !Below(x, s[0])
    requires Sorted(rest) && multiset(rest) == multiset(s[1..]) + multiset{x}
    ensures Sorted([s[0]] + rest)
    ensures multiset([s[0]] + rest) == multiset(s) + multiset{x}
  {
    BelowTotal(x, s[0]);
    assert s == [s[0]] + s[1..];
    forall j | 0 <= j < |rest| ensures Below(s[0], rest[j]) {
      assert rest[j] in multiset(rest);
      if rest[j] != x {
        assert rest[j] in multiset(s[1..]);
        var k :| 0 <= k < |s[1..]| && s[1..][k] == rest[j];
        assert s[k + 1] == rest[j];
      }
    }
  }

  /** The list's `sort()`, written as an insertion sort: a sorted permutation. */
  function Sort(s: seq<string>): (r: seq<string>)
    ensures Sorted(r)
    ensures multiset(r) == multiset(s)
  {
    if s == [] then []
    else
      assert s == [s[0]] + s[1..];
      Insert(s[0], Sort(s[1..]))
  }

  /** Two sorted lists holding the same names are the same list: the order of
      the directory listing cannot show through the sort. */
  lemma {:induction false} SortedUnique(a: seq<string>, b: seq<string>)
    requires Sorted(a) && Sorted(b) && multiset(a) == multiset(b)
    ensures a == b
    decreases |a|
  {
    if a != [] {
      assert |b| == |multiset(b)| == |multiset(a)| == |a|;
      SortedSameHead(a, b);
      SortedTail(a);
      SortedTail(b);
      SortedUnique(a[1..], b[1..]);
      assert a == [a[0]] + a[1..] && b == [b[0]] + b[1..];
    }
  }

  lemma SortedTail(a: seq<string>)
    requires Sorted(a) && a != []
    ensures Sorted(a[1..])
    ensures multiset(a[1..]) == multiset(a) - multiset{a[0]}
  {
    assert a == [a[0]] + a[1..];
  }

  lemma SortedSameHead(a: seq<string>, b: seq<string>)
    requires Sorted(a) && Sorted(b) && multiset(a) == multiset(b)
    requires a != [] && b != []
    ensures a[0] == b[0]
  {
    assert a[0] in multiset(b) && b[0] in multiset(a);
    var i :| 0 <= i < |b| && b[i] == a[0];
    var j :| 0 <= j < |a| && a[j] == b[0];
    BelowReflexive(a[0]);
    assert Below(b[0], a[0]) by { if i > 0 { assert Below(b[0], b[i]); } }
    assert Below(a[0], b[0]) by { if j > 0 { assert Below(a[0], a[j]); } }
    BelowAntisymmetric(a[0], b[0]);
  }

  /** The listing with the `.solution` entries left out, in listing order. */
  function CaseNames(listing: seq<string>): seq<string>
  {
    if listing == [] then []
    else
      var last := listing[|listing| - 1];
      CaseNames(listing[..|listing| - 1]) + if EndsWith(last, SolutionSuffix) then [] else [last]
  }

  /** The loop at the head of `start_benchmark`: walk the listing and append
      every name that does not end in `.solution`. */
  method CollectTestCases(listing: seq<string>) returns (testCases: seq<string>)
    ensures testCases == CaseNames(listing)
  {
    testCases := [];
    var i := 0;
    while i < |listing|
      invariant 0 <= i <= |listing|
      invariant testCases == CaseNames(listing[..i])
    {
      var filename := listing[i];
      assert listing[..i + 1][..i] == listing[..i];
      if !EndsWith(filename, SolutionSuffix) {
        testCases := testCases + [filename];
      }
      i := i + 1;
    }
    assert listing[..i] == listing;
  }

  /** A name is kept exactly as often as the listing holds it, unless it ends
      in `.solution`, in which case it is dropped. */
  lemma {:induction false} CaseNamesCount(listing: seq<string>, n: string)
    ensures multiset(CaseNames(listing))[n] ==
      if EndsWith(n, SolutionSuffix) then 0 else multiset(listing)[n]
    decreases |listing|
  {
    if listing != [] {
      var init := listing[..|listing| - 1];
      CaseNamesCount(init, n);
      assert listing == init + [listing[|listing| - 1]];
    }
  }

  lemma {:induction false} CaseNamesNoDup(listing: seq<string>)
    requires NoDup(listing)
    ensures NoDup(CaseNames(listing))
    decreases |listing|
  {
    if listing != [] {
      var init := listing[..|listing| - 1];
      var last := listing[|listing| - 1];
      assert NoDup(init);
      CaseNamesNoDup(init);
      if !EndsWith(last, SolutionSuffix) {
        assert last !in multiset(CaseNames(init)) by { CaseNamesCount(init, last); }
        assert forall i | 0 <= i < |CaseNames(init)| :: CaseNames(init)[i] in multiset(CaseNames(init));
      }
    }
  }

  /** `NoDup` is a fact about counts, so it survives a permutation. */
  lemma {:induction false} NoDupCount(s: seq<string>, x: string)
    requires NoDup(s)
    ensures multiset(s)[x] <= 1
    decreases |s|
  {
    if s != [] {
      assert s == [s[0]] + s[1..];
      assert NoDup(s[1..]);
      NoDupCount(s[1..], x);
      if x == s[0] {
        assert x !in s[1..];
      }
    }
  }

  lemma NoDupPermutation(a: seq<string>, b: seq<string>)
    requires NoDup(a) && multiset(a) == multiset(b)
    ensures NoDup(b)
  {
    forall i, j | 0 <= i < j < |b| ensures b[i] != b[j] {
      NoDupCount(a, b[i]);
      assert b == b[..j] + b[j..];
      assert b[i] in multiset(b[..j]) && b[j] in multiset(b[j..]);
    }
  }

  /** The test-case list a new session gets from a directory listing. */
  function SortedCases(listing: seq<string>): seq<string> {
    Sort(CaseNames(listing))
  }

  /** What `start_benchmark` promises about the list it builds: it is sorted,
      it holds each non-`.solution` entry of the listing and nothing else, it
      repeats no name when the listing repeats none, and it is the only sorted
      list with that content. */
  lemma SortedCasesSpec(listing: seq<string>)
    ensures Sorted(SortedCases(listing))
    ensures forall n :: n in SortedCases(listing) <==> n in listing && !EndsWith(n, SolutionSuffix)
    ensures NoDup(listing) ==> NoDup(SortedCases(listing))
    ensures forall t | Sorted(t) && multiset(t) == multiset(CaseNames(listing)) :: t == SortedCases(listing)
  {
    var r := SortedCases(listing);
    forall n ensures n in r <==> n in listing && !EndsWith(n, SolutionSuffix) {
      CaseNamesCount(listing, n);
      assert n in r <==> n in multiset(r);
    }
    if NoDup(listing) {
      CaseNamesNoDup(listing);
      NoDupPermutation(CaseNames(listing), r);
    }
    forall t | Sorted(t) && multiset(t) == multiset(CaseNames(listing)) ensures t == r {
      SortedUnique(t, r);
    }
  }

  /** Two listings of the same directory, in whatever order `os.listdir`
      returns them, give the same test-case list. */
  lemma ListingOrderIrrelevant(l1: seq<string>, l2: seq<string>)
    requires multiset(l1) == multiset(l2)
    ensures SortedCases(l1) == SortedCases(l2)
  {
    assert multiset(CaseNames(l1)) == multiset(CaseNames(l2)) by {
      forall n ensures multiset(CaseNames(l1))[n] == multiset(CaseNames(l2))[n] {
        CaseNamesCount(l1, n);
        CaseNamesCount(l2, n);
      }
    }
    SortedUnique(SortedCases(l1), SortedCases(l2));
  }
}
