/**
 * The state of the allowed-apps screen and the handlers that change it:
 * `onCreate`, the search task, the adapter's click and row rendering, `onStop`.
 */
module Screen {
  import opened Wrappers
  import opened Packages
  import opened Search
  import opened Adapter
  import opened Preferences

  /** `ProfileManager.get(uuid)`: the registry is given as a map from identifier to the profile's store. */
  function LookupProfile(profiles: map<string, Prefs>, uuid: string): (r: Option<Prefs>)
    ensures r.Some? <==> uuid in profiles
    ensures r.Some? ==> r.value == profiles[uuid]
  {
    if uuid in profiles then Some(profiles[uuid]) else None
  }

  class AllowedAppsActivity {
    /** The cached installed-package list, sorted once when first loaded. */
    var packageInfos: seq<PackageInfo>
    /** Package names in the allow/deny list. */
    var allowedApps: set<string>
    var allowMode: bool
    var allowByPass: bool
    /** The states of the two checkboxes, which the user may change and `onStop` saves. */
    var allowModeChecked: bool
    var allowByPassChecked: bool
    /** `mProfile`, represented by its preference store; `None` for a null profile. */
    var profile: Option<Prefs>
    /** The adapter's `items`: the list the screen shows. */
    var items: seq<PackageInfo>

    /** The in-memory state `onStop` writes back. */
    function CurrentSettings(): Settings
      reads this
    {
      Settings(allowedApps, allowModeChecked, allowByPassChecked)
    }

    /** The field initialisers. */
    constructor ()
      ensures packageInfos == [] && items == [] && profile == None
      ensures Settings(allowedApps, allowMode, allowByPass) == InitialSettings
      ensures !allowModeChecked && !allowByPassChecked
    {
      packageInfos := [];
      allowedApps := {};
      allowMode := true;
      allowByPass := false;
      allowModeChecked := false;
      allowByPassChecked := false;
      profile := None;
      items := [];
    }

    /**
     * `onCreate`: look the profile up when an identifier was passed, load its
     * settings when it exists, set the checkboxes, and run a search with the
     * empty keyword. `installed` is what the package manager reports.
     */
    method OnCreate(uuid: Option<string>, profiles: map<string, Prefs>, installed: seq<PackageInfo>)
      modifies this
      ensures profile == if uuid.Some? then LookupProfile(profiles, uuid.value) else old(profile)
      ensures Settings(allowedApps, allowMode, allowByPass) ==
        if uuid.Some? && uuid.value in profiles then Load(profiles[uuid.value])
        else old(Settings(allowedApps, allowMode, allowByPass))
      ensures allowModeChecked == allowMode && allowByPassChecked == allowByPass
      ensures old(packageInfos) != [] ==> packageInfos == old(packageInfos)
      ensures old(packageInfos) == [] ==>
        Sorted(packageInfos, allowedApps) && multiset(packageInfos) == multiset(installed)
      ensures items == packageInfos
    {
      if uuid.Some? {
        profile := LookupProfile(profiles, uuid.value);
        if profile.Some? {
          var loaded := Load(profile.value);
          allowedApps := loaded.allowedApps;
          allowMode := loaded.allowMode;
          allowByPass := loaded.allowByPass;
        }
      }
      allowModeChecked := allowMode;
      allowByPassChecked := allowByPass;
      ExecuteSearchTask("", installed);
    }

    /** `loadApps`: replace the cache by the installed packages, sorted by the comparator. */
    method LoadApps(installed: seq<PackageInfo>)
      modifies this`packageInfos
      ensures Sorted(packageInfos, allowedApps)
      ensures multiset(packageInfos) == multiset(installed)
    {
      packageInfos := SortPackages(installed, allowedApps);
    }

    /**
     * `SearchTask.doInBackground`: load and sort only when the cache is empty,
     * then return the cache itself for an empty keyword and its matching
     * entries, in cache order, otherwise.
     */
    method DoInBackground(keywords: string, installed: seq<PackageInfo>) returns (results: seq<PackageInfo>)
      modifies this`packageInfos
      ensures old(packageInfos) != [] ==> packageInfos == old(packageInfos)
      ensures old(packageInfos) == [] ==>
        Sorted(packageInfos, allowedApps) && multiset(packageInfos) == multiset(installed)
      ensures results == SearchResult(packageInfos, keywords)
    {
      if |packageInfos| == 0 {
        LoadApps(installed);
      }
      if keywords == [] {
        results := packageInfos;
      } else {
        results := FilterByKeyword(packageInfos, keywords);
      }
    }

    /** `updateItems`: the adapter shows the new list. */
    method UpdateItems(newItems: seq<PackageInfo>)
      modifies this`items
      ensures items == newItems
    {
      items := newItems;
    }

    /** One run of `SearchTask`: `doInBackground`, then `onPostExecute` hands the result to the adapter. */
    method ExecuteSearchTask(keywords: string, installed: seq<PackageInfo>)
      modifies this`packageInfos, this`items
      ensures old(packageInfos) != [] ==> packageInfos == old(packageInfos)
      ensures old(packageInfos) == [] ==>
        Sorted(packageInfos, allowedApps) && multiset(packageInfos) == multiset(installed)
      ensures items == SearchResult(packageInfos, keywords)
    {
      var results := DoInBackground(keywords, installed);
      UpdateItems(results);
    }

    /** `onItemClick`: flip the clicked package's membership; the lists are not touched. */
    method OnItemClick(position: int)
      requires 0 <= position < |items|
      modifies this`allowedApps
      ensures allowedApps == Toggle(old(allowedApps), items[position].packageName)
    {
      var packageName := items[position].packageName;
      var contains := packageName in allowedApps;
      if contains {
        allowedApps := allowedApps - {packageName};
      } else {
        allowedApps := allowedApps + {packageName};
      }
    }

    /** `getView`: what row `position` shows. */
    method GetView(position: int) returns (row: Row)
      requires 0 <= position < |items|
      ensures row == RowFor(items[position], allowedApps)
    {
      var packageInfo := items[position];
      var packageName := packageInfo.packageName;
      var appName := packageInfo.appLabel;
      if IsSystem(packageInfo) {
        appName := SystemMarker + appName;
      }
      row := Row(appName, packageName, packageName in allowedApps);
    }

    /** `onStop` as written: the profile is dereferenced unconditionally. */
    method OnStop() returns (r: Result<Prefs, StopError>)
      modifies this`profile
      ensures r == StopAsWritten(old(profile), CurrentSettings())
      ensures profile == if r.Success? then Some(r.value) else old(profile)
    {
      if profile.None? {
        r := Failure(NullProfile);
      } else {
        var saved := Save(CurrentSettings());
        profile := Some(saved);
        r := Success(saved);
      }
    }

    /** `onStop` with a null check on the profile. */
    method OnStopGuarded()
      modifies this`profile
      ensures old(profile).None? ==> profile == None
      ensures old(profile).Some? ==> profile == StopGuarded(old(profile), CurrentSettings())
    {
      if profile.Some? {
        profile := Some(Save(CurrentSettings()));
      }
    }
  }

  /** Opening the screen without a profile identifier and closing it again: `onStop` throws. */
  method LaunchWithoutUuidThenStop(installed: seq<PackageInfo>) returns (r: Result<Prefs, StopError>)
    ensures r == Failure(NullProfile)
  {
    var screen := new AllowedAppsActivity();
    screen.OnCreate(None, map[], installed);
    r := screen.OnStop();
  }

  /**
   * Opening the screen on a profile and closing it without any change stores
   * back what was read: each key keeps its value, a missing key gets its default.
   */
  method OpenAndCloseUnchanged(uuid: string, profiles: map<string, Prefs>, installed: seq<PackageInfo>)
    returns (saved: Option<Prefs>)
    requires uuid in profiles
    ensures saved.Some? && Load(saved.value) == Load(profiles[uuid])
    ensures Complete(profiles[uuid]) ==> saved == Some(profiles[uuid])
  {
    var screen := new AllowedAppsActivity();
    screen.OnCreate(Some(uuid), profiles, installed);
    screen.OnStopGuarded();
    saved := screen.profile;
    SaveLoad(profiles[uuid]);
  }

  /**
   * A click between two searches changes the allowed set but not the order:
   * the second search filters the list sorted at load time.
   */
  method ClickThenSearch(installed: seq<PackageInfo>, position: int, keywords: string)
    returns (before: seq<PackageInfo>, after: seq<PackageInfo>, shown: seq<PackageInfo>)
    requires 0 <= position < |installed|
    ensures multiset(before) == multiset(installed) && Sorted(before, {})
    ensures after == before
    ensures shown == SearchResult(before, keywords)
  {
    var screen := new AllowedAppsActivity();
    screen.OnCreate(None, map[], installed);
    before := screen.packageInfos;
    assert |screen.items| == |installed| by {
      assert |multiset(screen.items)| == |multiset(installed)|;
    }
    screen.OnItemClick(position);
    screen.ExecuteSearchTask(keywords, installed);
    after := screen.packageInfos;
    shown := screen.items;
  }
}
