/**
 * The keyword filter of `SearchTask.doInBackground`: keep, in order, the
 * cached entries whose lower-cased package name or lower-cased label contains
 * the keyword. The keyword itself is used as typed.
 */
module Search {
  import opened JavaStrings
  import opened Packages

  /** The test applied to each cached entry. */
  predicate Matches(info: PackageInfo, keywords: string)
    ensures keywords == [] ==> Matches(info, keywords)
    ensures Matches(info, keywords) ==> forall j :: 0 <= j < |keywords| ==> !IsUpperAscii(keywords[j])
  {
    ContainedInLowerCase(info.packageName, keywords);
    ContainedInLowerCase(info.appLabel, keywords);
    Contains(ToLowerCase(info.packageName), keywords) || Contains(ToLowerCase(info.appLabel), keywords)
  }

  /** The matching entries of `s`, in their order in `s`. */
  function Filter(s: seq<PackageInfo>, keywords: string): (r: seq<PackageInfo>)
    ensures |r| <= |s|
    ensures forall i :: 0 <= i < |r| ==> r[i] in s && Matches(r[i], keywords)
    decreases |s|
  {
    if s == [] then []
    else Filter(s[..|s| - 1], keywords) + (if Matches(s[|s| - 1], keywords) then [s[|s| - 1]] else [])
  }

  /** What a search returns: the cached list itself for an empty keyword, the filtered list otherwise. */
  function SearchResult(cached: seq<PackageInfo>, keywords: string): (r: seq<PackageInfo>)
    ensures keywords == [] ==> r == cached
    ensures forall i :: 0 <= i < |r| ==> r[i] in cached && Matches(r[i], keywords)
  {
    if keywords == [] then cached else Filter(cached, keywords)
  }

  /** `r` is `s` with some entries dropped and the rest in their original order. */
  ghost predicate IsSubsequence<T>(r: seq<T>, s: seq<T>)
    decreases |s|
  {
    if r == [] then true
    else if s == [] then false
    else (r[|r| - 1] == s[|s| - 1] && IsSubsequence(r[..|r| - 1], s[..|s| - 1]))
         || IsSubsequence(r, s[..|s| - 1])
  }

  /** Each entry occurs in the result as often as in the input if it matches, and not at all otherwise. */
  lemma {:induction false} FilterCount(s: seq<PackageInfo>, keywords: string, x: PackageInfo)
    ensures multiset(Filter(s, keywords))[x] == if Matches(x, keywords) then multiset(s)[x] else 0
    decreases |s|
  {
    if s != [] {
      FilterCount(s[..|s| - 1], keywords, x);
      assert s == s[..|s| - 1] + [s[|s| - 1]];
    }
  }

  /** The result holds exactly the matching entries of the input. */
  lemma FilterMembership(s: seq<PackageInfo>, keywords: string, x: PackageInfo)
    ensures x in Filter(s, keywords) <==> x in s && Matches(x, keywords)
  {
    FilterCount(s, keywords, x);
  }

  /** The result keeps the relative order of the input. */
  lemma {:induction false} FilterIsSubsequence(s: seq<PackageInfo>, keywords: string)
    ensures IsSubsequence(Filter(s, keywords), s)
    decreases |s|
  {
    if s != [] {
      var init := s[..|s| - 1];
      FilterIsSubsequence(init, keywords);
      if Matches(s[|s| - 1], keywords) {
        var r := Filter(s, keywords);
        assert r[..|r| - 1] == Filter(init, keywords);
        assert r[|r| - 1] == s[|s| - 1] && s[..|s| - 1] == init;
      } else {
        var r := Filter(s, keywords);
        assert r == Filter(init, keywords) + [] == Filter(init, keywords);
        assert s[..|s| - 1] == init;
        assert IsSubsequence(r, init);
      }
    }
  }

  /** A keyword with an upper-case ASCII letter matches no entry, so the search finds nothing. */
  lemma UpperCaseKeywordFindsNothing(s: seq<PackageInfo>, keywords: string, j: int)
    requires 0 <= j < |keywords| && IsUpperAscii(keywords[j])
    ensures Filter(s, keywords) == []
  {
  }

  /** The appending loop of `doInBackground` for a non-empty keyword. */
  method FilterByKeyword(cached: seq<PackageInfo>, keywords: string) returns (list2: seq<PackageInfo>)
    ensures list2 == Filter(cached, keywords)
  {
    list2 := [];
    for i := 0 to |cached|
      invariant list2 == Filter(cached[..i], keywords)
    {
      var info := cached[i];
      var packageName := ToLowerCase(info.packageName);
      var name := ToLowerCase(info.appLabel);
      if Contains(packageName, keywords) || Contains(name, keywords) {
        list2 := list2 + [info];
      }
      assert cached[..i + 1][..i] == cached[..i];
    }
    assert cached[..|cached|] == cached;
  }

  /** A case-insensitive search: the keyword is lower-cased like the names it is compared with. */
  function FilterIgnoringCase(s: seq<PackageInfo>, keywords: string): (r: seq<PackageInfo>)
    ensures forall i :: 0 <= i < |r| ==> r[i] in s && Matches(r[i], ToLowerCase(keywords))
  {
    Filter(s, ToLowerCase(keywords))
  }

  /** The case-insensitive search finds the same entries whatever the case of the keyword's letters. */
  lemma FilterIgnoringCaseInsensitive(s: seq<PackageInfo>, k1: string, k2: string)
    requires ToLowerCase(k1) == ToLowerCase(k2)
    ensures FilterIgnoringCase(s, k1) == FilterIgnoringCase(s, k2)
  {
  }

  /**
   * The case-insensitive search finds every cached entry whose package name or
   * label contains the keyword exactly as typed, whatever the letter case.
   */
  lemma FilterIgnoringCaseFindsTypedKeyword(s: seq<PackageInfo>, keywords: string, x: PackageInfo)
    requires x in s && (Contains(x.packageName, keywords) || Contains(x.appLabel, keywords))
    ensures x in FilterIgnoringCase(s, keywords)
  {
    var name := if Contains(x.packageName, keywords) then x.packageName else x.appLabel;
    ContainsIff(name, keywords);
    var i :| OccursAt(name, keywords, i);
    LowerCaseKeepsOccurrence(name, keywords, i);
    ContainsIff(ToLowerCase(name), ToLowerCase(keywords));
    FilterMembership(s, ToLowerCase(keywords), x);
  }

  /** On a keyword typed in lower case both searches agree. */
  lemma {:induction false} FilterIgnoringCaseAgreesOnLowerCase(s: seq<PackageInfo>, keywords: string)
    requires ToLowerCase(keywords) == keywords
    ensures FilterIgnoringCase(s, keywords) == Filter(s, keywords)
  {
  }

  /** Searching "Chrome" for the Chrome browser: the search as written finds nothing, the case-insensitive one finds it. */
  lemma CapitalisedKeywordExample()
    ensures var chrome := PackageInfo("com.android.chrome", "Chrome", 0);
      Filter([chrome], "Chrome") == [] && FilterIgnoringCase([chrome], "Chrome") == [chrome]
  {
    var chrome := PackageInfo("com.android.chrome", "Chrome", 0);
    UpperCaseKeywordFindsNothing([chrome], "Chrome", 0);
    assert Contains(chrome.appLabel, "Chrome") by {
      assert chrome.appLabel[..|"Chrome"|] == "Chrome";
    }
    FilterIgnoringCaseFindsTypedKeyword([chrome], "Chrome", chrome);
    var found := FilterIgnoringCase([chrome], "Chrome");
    assert found[0] == chrome;
  }
}
