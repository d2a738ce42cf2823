/**
 * The list adapter's pure rules: what a click does to the allowed set, and
 * what a row shows (display name and checkbox).
 */
module Adapter {
  import opened Packages

  /** `onItemClick` on the allowed set: remove the name if present, add it otherwise. */
  function Toggle(allowed: set<string>, name: string): (r: set<string>)
    ensures name in r <==> name !in allowed
    ensures forall other :: other != name ==> (other in r <==> other in allowed)
  {
    if name in allowed then allowed - {name} else allowed + {name}
  }

  /** Clicking the same row twice restores the allowed set. */
  lemma ToggleTwice(allowed: set<string>, name: string)
    ensures Toggle(Toggle(allowed, name), name) == allowed
  {
  }

  /** Prefix that `getView` puts before the label of a system app. */
  const SystemMarker: string := "** "

  /** What a row of the list shows. */
  datatype Row = Row(appName: string, packageName: string, checked: bool)

  /** `getView` for one entry, given the allowed set. */
  function RowFor(info: PackageInfo, allowed: set<string>): (row: Row)
    ensures row.packageName == info.packageName
    ensures row.checked <==> info.packageName in allowed
    ensures IsSystem(info) ==> row.appName == SystemMarker + info.appLabel
    ensures !IsSystem(info) ==> row.appName == info.appLabel
  {
    var appName := if IsSystem(info) then SystemMarker + info.appLabel else info.appLabel;
    Row(appName, info.packageName, info.packageName in allowed)
  }

  /**
   * After a click on row `i`, the rows sharing its package name change their
   * checkbox, and nothing else any row shows changes.
   */
  lemma ClickFlipsRow(items: seq<PackageInfo>, allowed: set<string>, i: int, j: int)
    requires 0 <= i < |items| && 0 <= j < |items|
    ensures var before := RowFor(items[j], allowed);
      var after := RowFor(items[j], Toggle(allowed, items[i].packageName));
      && after.appName == before.appName
      && after.packageName == before.packageName
      && (after.checked <==> (before.checked != (items[j].packageName == items[i].packageName)))
  {
  }
}
