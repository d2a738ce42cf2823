/**
 * Installed packages and the order `loadApps` puts them in: packages already
 * in the allowed set first, each group by ascending package name.
 */
module Packages {
  import opened JavaStrings

  /**
   * What the picker reads of a `PackageInfo`: the package name, the label
   * `loadLabel` returns, and `applicationInfo.flags` (a Java `int`).
   */
  datatype PackageInfo = PackageInfo(packageName: string, appLabel: string, flags: bv32)

  /** `ApplicationInfo.FLAG_SYSTEM`, bit 0. */
  const FLAG_SYSTEM: bv32 := 1

  /** The row of a system app is marked. */
  predicate IsSystem(info: PackageInfo)
    ensures IsSystem(info) <==> info.flags % 2 == 1
  {
    info.flags & FLAG_SYSTEM != 0
  }

  /** `Boolean.compareTo`: false before true. */
  function BooleanCompareTo(x: bool, y: bool): (r: int)
    ensures r == 0 <==> x == y
    ensures r > 0 <==> x && !y
    ensures r < 0 <==> !x && y
  {
    if x == y then 0 else if x then 1 else -1
  }

  /** The anonymous comparator of `loadApps`: the negated membership comparison, then the package names. */
  function ComparePackages(allowed: set<string>, o1: PackageInfo, o2: PackageInfo): (r: int)
    ensures o1.packageName in allowed && o2.packageName !in allowed ==> r < 0
    ensures o1.packageName !in allowed && o2.packageName in allowed ==> r > 0
    ensures (o1.packageName in allowed <==> o2.packageName in allowed) ==>
      r == CompareTo(o1.packageName, o2.packageName)
  {
    var cp := BooleanCompareTo(o1.packageName in allowed, o2.packageName in allowed);
    if cp != 0 then -cp else CompareTo(o1.packageName, o2.packageName)
  }

  /** The comparator is a lexicographic order on (not allowed, package name). */
  lemma ComparePackagesLexicographic(allowed: set<string>, o1: PackageInfo, o2: PackageInfo)
    ensures ComparePackages(allowed, o1, o2) < 0 <==>
      (o1.packageName in allowed && o2.packageName !in allowed)
      || ((o1.packageName in allowed <==> o2.packageName in allowed) && LexLess(o1.packageName, o2.packageName))
  {
    CompareToNegativeIff(o1.packageName, o2.packageName);
  }

  /** Swapping the operands negates the comparison. */
  lemma ComparePackagesAntisymmetric(allowed: set<string>, o1: PackageInfo, o2: PackageInfo)
    ensures ComparePackages(allowed, o1, o2) == -ComparePackages(allowed, o2, o1)
  {
    CompareToAntisymmetric(o1.packageName, o2.packageName);
  }

  /** Two packages tie exactly when their names are equal. */
  lemma ComparePackagesZeroIff(allowed: set<string>, o1: PackageInfo, o2: PackageInfo)
    ensures ComparePackages(allowed, o1, o2) == 0 <==> o1.packageName == o2.packageName
  {
    CompareToZeroIff(o1.packageName, o2.packageName);
  }

  /** "At most" under the comparator is transitive. */
  lemma ComparePackagesTransitive(allowed: set<string>, o1: PackageInfo, o2: PackageInfo, o3: PackageInfo)
    requires ComparePackages(allowed, o1, o2) <= 0 && ComparePackages(allowed, o2, o3) <= 0
    ensures ComparePackages(allowed, o1, o3) <= 0
  {
    if (o1.packageName in allowed) == (o2.packageName in allowed) == (o3.packageName in allowed) {
      CompareToTransitive(o1.packageName, o2.packageName, o3.packageName);
    }
  }

  /** No pair of entries is out of order. */
  ghost predicate Sorted(s: seq<PackageInfo>, allowed: set<string>)
  {
    forall i, j :: 0 <= i < j < |s| ==> ComparePackages(allowed, s[i], s[j]) <= 0
  }

  /** No two entries share a package name (the package manager reports each package once). */
  ghost predicate DistinctNames(s: seq<PackageInfo>)
  {
    forall i, j :: 0 <= i < j < |s| ==> s[i].packageName != s[j].packageName
  }

  /** In a sorted list every allowed package precedes every other one, and each group ascends by name. */
  lemma SortedGroups(s: seq<PackageInfo>, allowed: set<string>, i: int, j: int)
    requires Sorted(s, allowed) && 0 <= i < j < |s|
    ensures s[j].packageName in allowed ==> s[i].packageName in allowed
    ensures (s[i].packageName in allowed <==> s[j].packageName in allowed) ==>
      CompareTo(s[i].packageName, s[j].packageName) <= 0
  {
  }

  /** Putting `x` between the entries that sort at most as it and those it sorts at most as keeps a list sorted. */
  lemma InsertionKeepsSorted(s: seq<PackageInfo>, x: PackageInfo, j: int, allowed: set<string>)
    requires Sorted(s, allowed) && 0 <= j <= |s|
    requires forall k :: 0 <= k < j ==> ComparePackages(allowed, s[k], x) <= 0
    requires forall k :: j <= k < |s| ==> ComparePackages(allowed, x, s[k]) <= 0
    ensures Sorted(s[..j] + [x] + s[j..], allowed)
  {
    var r := s[..j] + [x] + s[j..];
    forall p, q | 0 <= p < q < |r|
      ensures ComparePackages(allowed, r[p], r[q]) <= 0
    {
      if q < j {
        assert r[p] == s[p] && r[q] == s[q];
      } else if q == j {
        assert r[p] == s[p] && r[q] == x;
      } else if p < j {
        assert r[p] == s[p] && r[q] == s[q - 1];
      } else if p == j {
        assert r[p] == x && r[q] == s[q - 1];
      } else {
        assert r[p] == s[p - 1] && r[q] == s[q - 1];
      }
    }
  }

  /** Inserts `x` into sorted `s` after every entry that does not sort after it. */
  method InsertSorted(s: seq<PackageInfo>, x: PackageInfo, allowed: set<string>) returns (r: seq<PackageInfo>)
    requires Sorted(s, allowed)
    ensures Sorted(r, allowed)
    ensures multiset(r) == multiset(s) + multiset{x}
  {
    var j := 0;
    while j < |s| && ComparePackages(allowed, x, s[j]) >= 0
      invariant 0 <= j <= |s|
      invariant forall k :: 0 <= k < j ==> ComparePackages(allowed, s[k], x) <= 0
    {
      ComparePackagesAntisymmetric(allowed, x, s[j]);
      j := j + 1;
    }
    forall k | j <= k < |s|
      ensures ComparePackages(allowed, x, s[k]) <= 0
    {
      if k > j {
        ComparePackagesTransitive(allowed, x, s[j], s[k]);
      }
    }
    InsertionKeepsSorted(s, x, j, allowed);
    r := s[..j] + [x] + s[j..];
    assert s == s[..j] + s[j..];
  }

  /**
   * `Collections.sort(packageInfos, comparator)`: the result is ordered by the
   * comparator and holds the installed packages, each as often as reported.
   */
  method SortPackages(installed: seq<PackageInfo>, allowed: set<string>) returns (sorted: seq<PackageInfo>)
    ensures Sorted(sorted, allowed)
    ensures multiset(sorted) == multiset(installed)
  {
    sorted := [];
    for i := 0 to |installed|
      invariant Sorted(sorted, allowed)
      invariant multiset(sorted) == multiset(installed[..i])
    {
      sorted := InsertSorted(sorted, installed[i], allowed);
      assert installed[..i + 1] == installed[..i] + [installed[i]];
    }
    assert installed[..|installed|] == installed;
  }

  /** Two sorted arrangements of the same distinct-named entries start with the same entry. */
  lemma SortedHeadsAgree(a: seq<PackageInfo>, b: seq<PackageInfo>, allowed: set<string>)
    requires Sorted(a, allowed) && Sorted(b, allowed)
    requires multiset(a) == multiset(b) && DistinctNames(a) && |a| > 0
    ensures |b| > 0 && a[0] == b[0]
  {
    assert |b| == |multiset(b)| == |a|;
    assert b[0] in multiset(a);
    var m :| 0 <= m < |a| && a[m] == b[0];
    assert a[0] in multiset(b);
    var k :| 0 <= k < |b| && b[k] == a[0];
    if m != 0 {
      assert ComparePackages(allowed, a[0], a[m]) <= 0;
      assert k == 0 || ComparePackages(allowed, b[0], b[k]) <= 0;
      ComparePackagesAntisymmetric(allowed, a[0], a[m]);
      ComparePackagesZeroIff(allowed, a[0], a[m]);
    }
  }

  /** Removing equal first entries from two lists with the same multiset leaves tails with the same multiset. */
  lemma TailsSameMultiset(a: seq<PackageInfo>, b: seq<PackageInfo>)
    requires |a| > 0 && |b| > 0 && a[0] == b[0] && multiset(a) == multiset(b)
    ensures multiset(a[1..]) == multiset(b[1..])
  {
    assert a == [a[0]] + a[1..];
    assert b == [b[0]] + b[1..];
    assert multiset(a[1..]) == multiset(a) - multiset{a[0]};
    assert multiset(b[1..]) == multiset(b) - multiset{b[0]};
  }

  /**
   * With distinct package names there is only one sorted arrangement of a list,
   * so the order after `loadApps` does not depend on the sorting algorithm.
   */
  lemma {:induction false} SortedPermutationUnique(a: seq<PackageInfo>, b: seq<PackageInfo>, allowed: set<string>)
    requires Sorted(a, allowed) && Sorted(b, allowed)
    requires multiset(a) == multiset(b) && DistinctNames(a)
    ensures a == b
    decreases |a|
  {
    if |a| == 0 {
      assert |b| == |multiset(b)| == 0;
    } else {
      SortedHeadsAgree(a, b, allowed);
      TailsSameMultiset(a, b);
      SortedPermutationUnique(a[1..], b[1..], allowed);
      assert a == [a[0]] + a[1..];
      assert b == [b[0]] + b[1..];
    }
  }
}
