/**
 * The three `java.lang.String` operations the picker relies on, on `seq<char>`:
 * `compareTo` (lexicographic, returning the difference of the first differing
 * characters or else of the lengths), `contains` and `toLowerCase`
 * (ASCII letters only).
 */
module JavaStrings {

  /**
   * `s.compareTo(t)`: at the first index where the strings differ, the
   * difference of the two characters; when one is a prefix of the other, the
   * difference of the lengths.
   */
  function CompareTo(s: string, t: string): (r: int)
    ensures |s| <= |t| && s == t[..|s|] ==> r == |s| - |t|
    ensures |t| <= |s| && t == s[..|t|] ==> r == |s| - |t|
  {
    if |s| == 0 || |t| == 0 then |s| - |t|
    else if s[0] != t[0] then s[0] as int - t[0] as int
    else
      PrefixTails(s, t);
      CompareTo(s[1..], t[1..])
  }

  /** With equal first characters, a prefix relation carries over to the tails. */
  lemma PrefixTails(s: string, t: string)
    requires |s| > 0 && |t| > 0 && s[0] == t[0]
    ensures |s| <= |t| && s == t[..|s|] ==> s[1..] == t[1..][..|s| - 1]
    ensures |t| <= |s| && t == s[..|t|] ==> t[1..] == s[1..][..|t| - 1]
  {
  }

  /** At the first index where the strings differ, the result is the difference of the two characters. */
  lemma {:induction false} CompareToFirstDifference(s: string, t: string, k: int)
    requires 0 <= k < |s| && k < |t| && s[..k] == t[..k] && s[k] != t[k]
    ensures CompareTo(s, t) == s[k] as int - t[k] as int
  {
    if k == 0 {
    } else {
      assert s[0] == s[..k][0] && t[0] == t[..k][0];
      assert s[1..][..k - 1] == s[..k][1..];
      assert t[1..][..k - 1] == t[..k][1..];
      CompareToFirstDifference(s[1..], t[1..], k - 1);
    }
  }

  /** Independent statement of "s sorts strictly before t": a proper prefix, or smaller at the first difference. */
  ghost predicate LexLess(s: string, t: string)
  {
    (|s| < |t| && s == t[..|s|])
    || exists k :: 0 <= k < |s| && k < |t| && s[..k] == t[..k] && s[k] < t[k]
  }

  /** Swapping the operands negates the result exactly. */
  lemma {:induction false} CompareToAntisymmetric(s: string, t: string)
    ensures CompareTo(s, t) == -CompareTo(t, s)
  {
    if |s| > 0 && |t| > 0 && s[0] == t[0] {
      CompareToAntisymmetric(s[1..], t[1..]);
    }
  }

  /** Zero exactly for equal strings. */
  lemma {:induction false} CompareToZeroIff(s: string, t: string)
    ensures CompareTo(s, t) == 0 <==> s == t
  {
    if |s| > 0 && |t| > 0 && s[0] == t[0] {
      CompareToZeroIff(s[1..], t[1..]);
      assert s == [s[0]] + s[1..];
      assert t == [t[0]] + t[1..];
    }
  }

  /** "At most" is transitive. */
  lemma {:induction false} CompareToTransitive(s: string, t: string, u: string)
    requires CompareTo(s, t) <= 0 && CompareTo(t, u) <= 0
    ensures CompareTo(s, u) <= 0
  {
    if |s| == 0 || |t| == 0 || |u| == 0 {
    } else if s[0] != t[0] || t[0] != u[0] {
      assert s[0] <= t[0] <= u[0];
    } else {
      CompareToTransitive(s[1..], t[1..], u[1..]);
    }
  }

  /** A negative result means exactly that `s` is lexicographically before `t`. */
  lemma {:induction false} CompareToNegativeIff(s: string, t: string)
    ensures CompareTo(s, t) < 0 <==> LexLess(s, t)
  {
    if |s| == 0 || |t| == 0 {
    } else if s[0] != t[0] {
      if s[0] < t[0] {
        assert s[..0] == t[..0];
      } else if LexLess(s, t) {
        if !(|s| < |t| && s == t[..|s|]) {
          var k :| 0 <= k < |s| && k < |t| && s[..k] == t[..k] && s[k] < t[k];
          if k > 0 {
            assert s[0] == s[..k][0];
          }
        }
      }
    } else {
      CompareToNegativeIff(s[1..], t[1..]);
      LexLessTail(s, t);
    }
  }

  /** With equal first characters, the order is decided by the tails. */
  lemma LexLessTail(s: string, t: string)
    requires |s| > 0 && |t| > 0 && s[0] == t[0]
    ensures LexLess(s, t) <==> LexLess(s[1..], t[1..])
  {
    if LexLess(s[1..], t[1..]) {
      if |s| - 1 < |t| - 1 && s[1..] == t[1..][..|s| - 1] {
        assert s == [s[0]] + s[1..];
        assert t[..|s|] == [t[0]] + t[1..][..|s| - 1];
      } else {
        var k :| 0 <= k < |s| - 1 && k < |t| - 1 && s[1..][..k] == t[1..][..k] && s[1..][k] < t[1..][k];
        assert s[..k + 1] == [s[0]] + s[1..][..k];
        assert t[..k + 1] == [t[0]] + t[1..][..k];
      }
    }
    if LexLess(s, t) {
      if |s| < |t| && s == t[..|s|] {
        assert s[1..] == t[1..][..|s| - 1];
      } else {
        var k :| 0 <= k < |s| && k < |t| && s[..k] == t[..k] && s[k] < t[k];
        assert k != 0;
        assert s[1..][..k - 1] == s[..k][1..];
        assert t[1..][..k - 1] == t[..k][1..];
      }
    }
  }

  /** An upper-case ASCII letter. */
  predicate IsUpperAscii(c: char)
  {
    'A' <= c <= 'Z'
  }

  /** `Character.toLowerCase` restricted to ASCII. */
  function ToLowerChar(c: char): (r: char)
    ensures !IsUpperAscii(r)
    ensures IsUpperAscii(c) ==> r as int - 'a' as int == c as int - 'A' as int
    ensures !IsUpperAscii(c) ==> r == c
  {
    if IsUpperAscii(c) then (c as int + 32) as char else c
  }

  /** `s.toLowerCase()`, ASCII letters only: same length, no upper-case letter left, other characters kept. */
  function ToLowerCase(s: string): (r: string)
    ensures |r| == |s|
    ensures forall i :: 0 <= i < |r| ==> !IsUpperAscii(r[i])
    ensures forall i :: 0 <= i < |s| && IsUpperAscii(s[i]) ==> r[i] as int - 'a' as int == s[i] as int - 'A' as int
    ensures forall i :: 0 <= i < |s| && !IsUpperAscii(s[i]) ==> r[i] == s[i]
  {
    seq(|s|, i requires 0 <= i < |s| => ToLowerChar(s[i]))
  }

  /** Lower-casing twice is lower-casing once. */
  lemma ToLowerCaseIdempotent(s: string)
    ensures ToLowerCase(ToLowerCase(s)) == ToLowerCase(s)
  {
  }

  /** `s.contains(k)`: `k` occurs at some position of `s`. */
  function Contains(s: string, k: string): (r: bool)
    ensures k == [] ==> r
    ensures r ==> |k| <= |s|
    decreases |s|
  {
    if |k| > |s| then false
    else if s[..|k|] == k then true
    else Contains(s[1..], k)
  }

  /** `k` occurs in `s` starting at index `i`. */
  ghost predicate OccursAt(s: string, k: string, i: int)
  {
    0 <= i && i + |k| <= |s| && s[i..i + |k|] == k
  }

  /** `Contains` agrees with the direct definition of an occurrence. */
  lemma {:induction false} ContainsIff(s: string, k: string)
    ensures Contains(s, k) <==> exists i :: OccursAt(s, k, i)
    decreases |s|
  {
    if |k| > |s| {
    } else if s[..|k|] == k {
      assert OccursAt(s, k, 0);
    } else {
      ContainsIff(s[1..], k);
      if exists i :: OccursAt(s[1..], k, i) {
        var i :| OccursAt(s[1..], k, i);
        assert s[i + 1..i + 1 + |k|] == s[1..][i..i + |k|];
        assert OccursAt(s, k, i + 1);
      }
      if exists i :: OccursAt(s, k, i) {
        var i :| OccursAt(s, k, i);
        assert i != 0;
        assert s[1..][i - 1..i - 1 + |k|] == s[i..i + |k|];
        assert OccursAt(s[1..], k, i - 1);
      }
    }
  }

  /** Every character of a string `s` contains also occurs in `s`. */
  lemma {:induction false} ContainsCharacters(s: string, k: string)
    requires Contains(s, k)
    ensures forall j :: 0 <= j < |k| ==> k[j] in s
    decreases |s|
  {
    if s[..|k|] == k {
      forall j | 0 <= j < |k| ensures k[j] in s {
        assert k[j] == s[j];
      }
    } else {
      ContainsCharacters(s[1..], k);
      forall j | 0 <= j < |k| ensures k[j] in s {
        assert k[j] in s[1..];
      }
    }
  }

  /** A keyword contained in a lower-cased string has no upper-case ASCII letter. */
  lemma ContainedInLowerCase(s: string, k: string)
    ensures Contains(ToLowerCase(s), k) ==> forall j :: 0 <= j < |k| ==> !IsUpperAscii(k[j])
  {
    if Contains(ToLowerCase(s), k) {
      ContainsCharacters(ToLowerCase(s), k);
    }
  }

  /** Lower-casing a string and a keyword keeps every occurrence of the keyword. */
  lemma LowerCaseKeepsOccurrence(s: string, k: string, i: int)
    requires OccursAt(s, k, i)
    ensures OccursAt(ToLowerCase(s), ToLowerCase(k), i)
  {
    forall j | 0 <= j < |k|
      ensures ToLowerCase(s)[i + j] == ToLowerCase(k)[j]
    {
      assert s[i + j] == s[i..i + |k|][j];
    }
  }
}
