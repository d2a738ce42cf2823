/**
 * The profile's preference entries the picker reads in `onCreate` and writes
 * in `onStop`: `allowed_apps` (a string set), `allow_apps_are_disallowed` and
 * `allow_bypass` (booleans). A key that was never written is `None`.
 */
module Preferences {
  import opened Wrappers

  /** The three keys of a profile's preference store. */
  datatype Prefs = Prefs(
    allowedApps: Option<set<string>>,         // "allowed_apps"
    allowAppsAreDisallowed: Option<bool>,     // "allow_apps_are_disallowed"
    allowBypass: Option<bool>)                // "allow_bypass"

  /** The picker's in-memory state: the allowed set and the two checkboxes. */
  datatype Settings = Settings(allowedApps: set<string>, allowMode: bool, allowByPass: bool)

  /** A store in which none of the keys was ever written. */
  const EmptyPrefs := Prefs(None, None, None)

  /** The field initialisers of the screen, in force when no profile is loaded. */
  const InitialSettings := Settings({}, true, false)

  /** Every key has been written. */
  predicate Complete(p: Prefs)
  {
    p.allowedApps.Some? && p.allowAppsAreDisallowed.Some? && p.allowBypass.Some?
  }

  /** `onCreate`: read each key with its default; allow mode is the negated stored flag. */
  function Load(p: Prefs): (r: Settings)
    ensures p.allowedApps.Some? ==> r.allowedApps == p.allowedApps.value
    ensures p.allowedApps.None? ==> r.allowedApps == {}
    ensures r.allowMode <==> p.allowAppsAreDisallowed != Some(true)
    ensures p.allowBypass.Some? ==> r.allowByPass == p.allowBypass.value
    ensures p.allowBypass.None? ==> !r.allowByPass
    ensures p == EmptyPrefs ==> r == InitialSettings
  {
    Settings(p.allowedApps.GetOr({}), !p.allowAppsAreDisallowed.GetOr(false), p.allowBypass.GetOr(false))
  }

  /** `onStop`: write all three keys; the stored flag is the negated allow mode. */
  function Save(s: Settings): (r: Prefs)
    ensures Complete(r)
    ensures Load(r) == s
  {
    Prefs(Some(s.allowedApps), Some(!s.allowMode), Some(s.allowByPass))
  }

  /** Saving what was loaded stores back the same values exactly when every key had been written. */
  lemma SaveLoad(p: Prefs)
    ensures Save(Load(p)) == p <==> Complete(p)
  {
  }

  /** The outcome of `onStop`, which dereferences the profile without checking it. */
  datatype StopError = NullProfile

  /** `onStop` as written: with no profile loaded it throws; otherwise it returns the saved store. */
  function StopAsWritten(profile: Option<Prefs>, s: Settings): (r: Result<Prefs, StopError>)
    ensures r.Failure? <==> profile.None?
    ensures r.Success? ==> Load(r.value) == s && Complete(r.value)
  {
    if profile.None? then Failure(NullProfile) else Success(Save(s))
  }

  /** `onStop` with the evident guard: with no profile there is nothing to save, and it never throws. */
  function StopGuarded(profile: Option<Prefs>, s: Settings): (r: Option<Prefs>)
    ensures r.None? <==> profile.None?
    ensures r.Some? ==> Load(r.value) == s && Complete(r.value)
  {
    if profile.None? then None else Some(Save(s))
  }

  /** Where a profile is loaded, the guarded version saves exactly what the original does. */
  lemma StopGuardedAgrees(profile: Option<Prefs>, s: Settings)
    requires profile.Some?
    ensures StopAsWritten(profile, s).Success?
    ensures StopGuarded(profile, s) == Some(StopAsWritten(profile, s).value)
  {
  }
}
