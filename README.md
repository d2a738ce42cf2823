# Allowed-apps picker of ics-openconnect, modelled in Dafny

This project models the bookkeeping behind the "allowed apps" screen of the
OpenConnect VPN client for Android (`AllowedAppsActivity`). On that screen the
user chooses which installed apps may use a VPN profile's tunnel, or which
may not. The model covers four parts:

- **Ordering.** `loadApps` sorts the installed packages once. Packages already
  in the allowed set come first. Within each group the packages follow
  `String.compareTo` on the package name.
- **Search.** `SearchTask.doInBackground` returns the cached list unchanged
  when the keyword is empty. Otherwise it keeps, in order, each entry whose
  lower-cased package name or lower-cased label contains the keyword. The
  keyword itself is not lower-cased.
- **Adapter.** A click on a row flips that package's membership in the
  allowed set. Each row shows the label, with `"** "` in front for a system
  app, and a checkbox that is ticked when the package is in the allowed set.
- **Preferences.** `onCreate` reads the profile's `allowed_apps`,
  `allow_apps_are_disallowed` (negated into allow mode) and `allow_bypass`.
  Each key has a default. `onStop` writes all three back from the current
  state.

Files:

- `wrappers.dfy`: `Option` and `Result`.
- `java_strings.dfy`: the `java.lang.String` operations the screen uses. These
  are `compareTo`, `contains` and an ASCII `toLowerCase`.
- `packages.dfy`: the package record, the comparator and its order
  properties, and a sort.
- `search.dfy`: the keyword filter.
- `adapter.dfy`: the toggle and row rendering.
- `preferences.dfy`: the load/save mapping.
- `activity.dfy`: the screen itself, as a class whose fields are the fields
  the Java handlers assign.

Inputs from the platform are parameters:

- the list `PackageManager.getInstalledPackages` returns;
- the profile registry behind `ProfileManager.get`, as a map;
- the identifier passed in the launching Intent, as an `Option`.

## Model

| member | source | states |
|---|---|---|
| `JavaStrings.CompareTo` | app/src/main/java/app/openconnect/AllowedAppsActivity.java:159 | when one package name is a prefix of the other, `compareTo` is the difference of the lengths |
| `JavaStrings.CompareToFirstDifference` | app/src/main/java/app/openconnect/AllowedAppsActivity.java:159 | at the first index where two names differ, `compareTo` is the difference of the two characters |
| `JavaStrings.CompareToAntisymmetric` | app/src/main/java/app/openconnect/AllowedAppsActivity.java:159 | swapping the two package names negates `compareTo` exactly |
| `JavaStrings.CompareToZeroIff` | app/src/main/java/app/openconnect/AllowedAppsActivity.java:159 | `compareTo` is zero exactly for equal names |
| `JavaStrings.CompareToTransitive` | app/src/main/java/app/openconnect/AllowedAppsActivity.java:159 | "compares at most" is transitive |
| `JavaStrings.CompareToNegativeIff` | app/src/main/java/app/openconnect/AllowedAppsActivity.java:159 | a negative `compareTo` means exactly lexicographically smaller: a proper prefix, or smaller at the first difference |
| `JavaStrings.ToLowerChar` | app/src/main/java/app/openconnect/AllowedAppsActivity.java:194-195 | an upper-case ASCII letter becomes the same letter in lower case, and other characters are kept |
| `JavaStrings.ToLowerCase` | app/src/main/java/app/openconnect/AllowedAppsActivity.java:194-195 | lower-casing keeps the length, turns each upper-case ASCII letter into the same letter in lower case, and keeps every other character |
| `JavaStrings.ToLowerCaseIdempotent` | app/src/main/java/app/openconnect/AllowedAppsActivity.java:194-195 | lower-casing twice equals lower-casing once |
| `JavaStrings.Contains` | app/src/main/java/app/openconnect/AllowedAppsActivity.java:196 | `contains` holds for the empty keyword, and only for a keyword no longer than the string |
| `JavaStrings.ContainsIff` | app/src/main/java/app/openconnect/AllowedAppsActivity.java:196 | `contains` holds exactly when the keyword occurs at some index of the string |
| `JavaStrings.ContainedInLowerCase` | app/src/main/java/app/openconnect/AllowedAppsActivity.java:194-196 | a keyword that a lower-cased string contains has no upper-case ASCII letter |
| `JavaStrings.ContainsCharacters` | app/src/main/java/app/openconnect/AllowedAppsActivity.java:196 | every character of a contained keyword occurs in the string |
| `Packages.IsSystem` | app/src/main/java/app/openconnect/AllowedAppsActivity.java:251 | an app is a system app exactly when bit 0 (`FLAG_SYSTEM`) of its flags is set, that is, when the flags are odd |
| `Packages.BooleanCompareTo` | app/src/main/java/app/openconnect/AllowedAppsActivity.java:155 | `Boolean.compareTo` is zero for equal values, positive for true against false, and negative for false against true |
| `Packages.ComparePackages` | app/src/main/java/app/openconnect/AllowedAppsActivity.java:152-160 | an allowed package compares before one that is not allowed, and the reverse; within one group the comparison is `compareTo` on the package names |
| `Packages.ComparePackagesLexicographic` | app/src/main/java/app/openconnect/AllowedAppsActivity.java:152-160 | the comparator puts `o1` first exactly when `o1` is allowed and `o2` is not, or both are in the same group and `o1`'s name is lexicographically smaller: a lexicographic order on (not allowed, package name) |
| `Packages.ComparePackagesAntisymmetric` | app/src/main/java/app/openconnect/AllowedAppsActivity.java:152-160 | `compare(o1, o2) == -compare(o2, o1)` |
| `Packages.ComparePackagesZeroIff` | app/src/main/java/app/openconnect/AllowedAppsActivity.java:152-160 | two packages tie exactly when their package names are equal |
| `Packages.ComparePackagesTransitive` | app/src/main/java/app/openconnect/AllowedAppsActivity.java:152-160 | "compares at most" is transitive, so the comparator is a valid total preorder for `Collections.sort` |
| `Packages.SortedGroups` | app/src/main/java/app/openconnect/AllowedAppsActivity.java:150-161 | in the sorted list, an allowed package is never after a package that is not allowed, and within a group the names ascend |
| `Packages.InsertSorted` | app/src/main/java/app/openconnect/AllowedAppsActivity.java:150 | inserting one entry into a sorted list keeps it sorted and adds exactly that entry |
| `Packages.SortPackages` | app/src/main/java/app/openconnect/AllowedAppsActivity.java:150-161 | the sorted list is ordered by the comparator and is a permutation of the installed packages |
| `Packages.SortedHeadsAgree` | app/src/main/java/app/openconnect/AllowedAppsActivity.java:150-161 | two sorted permutations of a list with distinct names have the same first entry |
| `Packages.SortedPermutationUnique` | app/src/main/java/app/openconnect/AllowedAppsActivity.java:150-161 | with distinct package names there is exactly one sorted permutation, so the loaded order does not depend on the sorting algorithm |
| `Search.Matches` | app/src/main/java/app/openconnect/AllowedAppsActivity.java:194-196 | the empty keyword matches every entry, and a matched keyword has no upper-case ASCII letter, because it was found in lower-cased text |
| `Search.Filter` | app/src/main/java/app/openconnect/AllowedAppsActivity.java:192-200 | the result is no longer than the cache, and every entry in it is cached and matches the keyword |
| `Search.SearchResult` | app/src/main/java/app/openconnect/AllowedAppsActivity.java:189-201 | an empty keyword returns the cached list itself; otherwise every entry returned is cached and matches |
| `Search.FilterCount` | app/src/main/java/app/openconnect/AllowedAppsActivity.java:192-200 | each entry occurs in the result as often as in the cache if it matches, and not at all if it does not |
| `Search.FilterMembership` | app/src/main/java/app/openconnect/AllowedAppsActivity.java:193-198 | an entry is in the result exactly when it is cached and its lower-cased name or label contains the keyword |
| `Search.FilterIsSubsequence` | app/src/main/java/app/openconnect/AllowedAppsActivity.java:192-200 | the result is a subsequence of the cache: its entries keep their relative order |
| `Search.UpperCaseKeywordFindsNothing` | app/src/main/java/app/openconnect/AllowedAppsActivity.java:194-196 | a keyword with an upper-case ASCII letter yields an empty result |
| `Search.FilterByKeyword` | app/src/main/java/app/openconnect/AllowedAppsActivity.java:192-200 | the appending loop returns exactly the filtered list, so the filter's properties hold of it |
| `Search.FilterIgnoringCase` | app/src/main/java/app/openconnect/AllowedAppsActivity.java:192-200 | the corrected search returns only cached entries whose lower-cased name or label contains the lower-cased keyword |
| `Search.FilterIgnoringCaseInsensitive` | app/src/main/java/app/openconnect/AllowedAppsActivity.java:187-196 | the corrected search finds the same entries for keywords that differ only in letter case |
| `JavaStrings.LowerCaseKeepsOccurrence` | app/src/main/java/app/openconnect/AllowedAppsActivity.java:194-196 | lower-casing both a string and a keyword keeps every occurrence of the keyword at the same index |
| `Search.FilterIgnoringCaseFindsTypedKeyword` | app/src/main/java/app/openconnect/AllowedAppsActivity.java:192-200 | the corrected search finds every cached entry whose package name or label contains the keyword as typed, in any letter case |
| `Search.FilterIgnoringCaseAgreesOnLowerCase` | app/src/main/java/app/openconnect/AllowedAppsActivity.java:187-196 | on a keyword typed in lower case, the corrected search and the original agree |
| `Search.CapitalisedKeywordExample` | app/src/main/java/app/openconnect/AllowedAppsActivity.java:192-200 | searching "Chrome" finds nothing for a package labelled "Chrome", while the corrected search finds it |
| `Adapter.Toggle` | app/src/main/java/app/openconnect/AllowedAppsActivity.java:264-274 | the clicked name's membership flips and every other name keeps its membership |
| `Adapter.ToggleTwice` | app/src/main/java/app/openconnect/AllowedAppsActivity.java:264-274 | clicking the same row twice restores the allowed set |
| `Adapter.RowFor` | app/src/main/java/app/openconnect/AllowedAppsActivity.java:249-257 | a row shows `"** "` plus the label exactly for a system app and the bare label otherwise; it shows its package name; its checkbox is ticked exactly when the name is allowed |
| `Adapter.ClickFlipsRow` | app/src/main/java/app/openconnect/AllowedAppsActivity.java:249-274 | after a click on row i, row j's checkbox flips exactly when it has row i's package name; its name and package text do not change |
| `Preferences.Load` | app/src/main/java/app/openconnect/AllowedAppsActivity.java:82-84 | each key is read with its own default: a stored allowed set or bypass flag is read as stored, a missing one gives the empty set or false; allow mode is on unless `allow_apps_are_disallowed` is stored as true; a store without the keys loads as the field initialisers (lines 63-65): nothing allowed, allow mode on, bypass off |
| `Preferences.Save` | app/src/main/java/app/openconnect/AllowedAppsActivity.java:139-142 | the saved store has all three keys, and it loads back as the saved state, including allow mode through the double negation |
| `Preferences.SaveLoad` | app/src/main/java/app/openconnect/AllowedAppsActivity.java:82-84 | writing back what was read reproduces the store exactly when all three keys were present |
| `Preferences.StopAsWritten` | app/src/main/java/app/openconnect/AllowedAppsActivity.java:136-143 | `onStop` throws exactly when no profile is loaded; otherwise the saved store has every key and loads back as the current state |
| `Preferences.StopGuarded` | app/src/main/java/app/openconnect/AllowedAppsActivity.java:136-143 | the guarded `onStop` saves nothing exactly when no profile is loaded, and otherwise saves a store that loads back as the current state |
| `Preferences.StopGuardedAgrees` | app/src/main/java/app/openconnect/AllowedAppsActivity.java:136-143 | with a profile loaded, the guarded and the original `onStop` save the same store |
| `Screen.LookupProfile` | app/src/main/java/app/openconnect/AllowedAppsActivity.java:80 | the profile is found exactly when the identifier is registered, and it is the registered one |
| `Screen.AllowedAppsActivity.constructor` | app/src/main/java/app/openconnect/AllowedAppsActivity.java:58-65 | a new screen has empty lists, no profile, nothing allowed, allow mode on and bypass off |
| `Screen.AllowedAppsActivity.OnCreate` | app/src/main/java/app/openconnect/AllowedAppsActivity.java:72-103 | the profile is looked up only when an identifier is given; the settings are loaded only when the profile exists; the checkboxes mirror the settings; the empty search loads the sorted permutation of the installed packages and shows it |
| `Screen.AllowedAppsActivity.LoadApps` | app/src/main/java/app/openconnect/AllowedAppsActivity.java:145-162 | the cache becomes a permutation of the installed packages, sorted by the comparator under the current allowed set |
| `Screen.AllowedAppsActivity.DoInBackground` | app/src/main/java/app/openconnect/AllowedAppsActivity.java:183-202 | the cache is loaded and sorted only when it is empty, and otherwise kept as it is; the result is the cache itself for an empty keyword and the filtered cache otherwise |
| `Screen.AllowedAppsActivity.UpdateItems` | app/src/main/java/app/openconnect/AllowedAppsActivity.java:216-219 | the adapter shows the new list |
| `Screen.AllowedAppsActivity.ExecuteSearchTask` | app/src/main/java/app/openconnect/AllowedAppsActivity.java:176-202 | after a search the adapter shows the search result of the cache, and a non-empty cache is not re-sorted |
| `Screen.AllowedAppsActivity.OnItemClick` | app/src/main/java/app/openconnect/AllowedAppsActivity.java:264-274 | the allowed set becomes the toggle of the clicked package's name; the cache and the shown list are not reordered |
| `Screen.AllowedAppsActivity.GetView` | app/src/main/java/app/openconnect/AllowedAppsActivity.java:237-260 | the row shown at a position is the row rule applied to that entry and the current allowed set |
| `Screen.AllowedAppsActivity.OnStop` | app/src/main/java/app/openconnect/AllowedAppsActivity.java:136-143 | as written: throws when no profile is loaded; otherwise stores the allowed set, the negated allow-mode checkbox and the bypass checkbox |
| `Screen.AllowedAppsActivity.OnStopGuarded` | app/src/main/java/app/openconnect/AllowedAppsActivity.java:136-143 | corrected: without a profile nothing happens; with one, the same store as the original is saved |
| `Screen.LaunchWithoutUuidThenStop` | app/src/main/java/app/openconnect/AllowedAppsActivity.java:79-84 | opening the screen without a profile identifier and closing it throws in `onStop` |
| `Screen.OpenAndCloseUnchanged` | app/src/main/java/app/openconnect/AllowedAppsActivity.java:82-84 | opening a profile and closing without changes saves a store that loads the same, and equals the original store when all keys were present |
| `Screen.ClickThenSearch` | app/src/main/java/app/openconnect/AllowedAppsActivity.java:184-186 | a click between two searches does not re-sort the cache; the second search filters the order sorted at load time |

## Left out

- `RemoteControlActivity` is not part of this model. It binds the VPN service, checks the caller against an external database and starts other activities. Every step is a call into collaborators whose code is not available.
- `Debounce` and the `AsyncTask` phases are left out. They are timer and thread scheduling. A search task is modelled as running to completion at once, so two overlapping searches are not modelled.
- `onCreateOptionsMenu`, `SearchView`, view inflation, `ViewHold`, icons, the progress bar and `notifyDataSetChanged` are left out. They are UI plumbing that keeps no state of the picker.
- `getCount`, `getItem` and `getItemId` are left out. They only read `items`, and `GetView` uses `items[position]` directly.
- The checkbox widgets' own click handling is Android code. The model keeps their states as two fields that `onStop` saves.
- `JavaStrings.ToLowerCase`: lower-cases ASCII letters only. Java's `toLowerCase` follows Unicode and the default locale; package names are ASCII, but labels need not be.
- `JavaStrings.CompareTo`: compares Dafny characters, which are Unicode scalar values. Java compares UTF-16 code units, which order characters outside the Basic Multilingual Plane differently. Package names are ASCII.
- `Packages.SortPackages`: stands for `Collections.sort`, which is library code (a stable merge sort working in place on the list). The model uses a stable insertion sort on a sequence. `SortedPermutationUnique` shows that with distinct package names no other order is possible. The Android package manager reports each package once.
- The preference store is a record of the three keys this screen uses. The store's other keys, the `SharedPreferences` editor and `commit` are persistence I/O.
- The store hands out its own set object from `getStringSet`, and the screen then mutates that set in place. This aliasing is not modelled; the store is a value.
- The adapter's `items` and the cache share one list object after an empty-keyword search. Neither list is mutated after it is sorted, so the model treats both as values.
- `TextUtils.isEmpty` also accepts `null`. The keyword is never null on this screen, so it is a `string`.

## Findings

| source | as written | input that shows it | evidently intended | confidence | as-written member | corrected member |
|---|---|---|---|---|---|---|
| app/src/main/java/app/openconnect/AllowedAppsActivity.java:139 | `onStop` dereferences `mProfile` unconditionally, although `onCreate` (lines 79-86) allows it to stay null | an Intent without `EXTRA_UUID`, or with an identifier not in the registry: `onStop` throws `NullPointerException` | skip saving when no profile is loaded | medium: depends on every launcher passing a valid identifier; not executed | `Screen.LaunchWithoutUuidThenStop` | `Screen.AllowedAppsActivity.OnStopGuarded` |
| app/src/main/java/app/openconnect/AllowedAppsActivity.java:194-196 | the names are lower-cased but the keyword is not, so the search is case-sensitive against lower-case text | keyword "Chrome" on a package labelled "Chrome" finds nothing | lower-case the keyword too, so that the search ignores letter case | medium: the keyword comes straight from the search box; not executed | `Search.CapitalisedKeywordExample` | `Search.FilterIgnoringCaseFindsTypedKeyword` |

The screen model (`Screen.AllowedAppsActivity`) keeps the search as written, because it models the source. The corrected search is `Search.FilterIgnoringCase`. The corrected `onStop` is `OnStopGuarded`, and `Screen.OpenAndCloseUnchanged` uses it.
