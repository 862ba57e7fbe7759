/** Which catalog records suit a game version: `isWithinVersionRange` and `modIsCompatible`
    of src/main/installMod.js. */
module Compatibility {
  import opened Wrappers
  import opened Versions
  import opened Catalog

  /** The game version the repository view filters for (`kspVersion` in
      src/main/repository.js). */
  const KspVersion := "1.4.1"

  /** `versionCompare(version, bound) > -1`: the answer is 0 or 1 (NaN fails). */
  predicate AtLeast(c: Cmp) { c == Greater || c == Equal }

  /** `isWithinVersionRange(version, start, end)`, where either bound may be the wildcard
      "any". `versionCompare` is called without options. */
  predicate IsWithinVersionRange(version: string, start: Option<string>, end: Option<string>) {
    (start == Some("any") || AtLeast(Compare(Some(version), start, NoOptions)))
    && (end == Some("any") || AtMost(Compare(Some(version), end, NoOptions)))
  }

  /** `modIsCompatible(mod, target)`: an exact `ksp_version` (or "any") takes precedence over
      the `ksp_version_min`/`ksp_version_max` range; a record with neither suits every game
      version. */
  predicate ModIsCompatible(mod: ModRecord, target: string) {
    if Present(mod.kspVersion) then
      mod.kspVersion.value == target || mod.kspVersion.value == "any"
    else if Present(mod.kspVersionMin) || Present(mod.kspVersionMax) then
      IsWithinVersionRange(target, mod.kspVersionMin, mod.kspVersionMax)
    else
      true
  }

  /** What one bound demands of the target: nothing when it is missing or "any"; otherwise
      the comparison must come out on the right side, and an incomparable bound admits no
      target. */
  predicate Admits(bound: Option<string>, target: string, lower: bool) {
    !Present(bound) || bound == Some("any") ||
    (var c := Compare(Some(target), bound, NoOptions); if lower then AtLeast(c) else AtMost(c))
  }

  /** The compatibility rule, bound by bound: an exact `ksp_version` must equal the target or
      be "any"; otherwise each of the two bounds must admit the target, which covers the
      record with no constraint at all. */
  lemma CompatibilityRule(mod: ModRecord, target: string)
    ensures Present(mod.kspVersion) ==>
      (ModIsCompatible(mod, target) <==> mod.kspVersion.value in {target, "any"})
    ensures !Present(mod.kspVersion) ==>
      (ModIsCompatible(mod, target) <==>
        Admits(mod.kspVersionMin, target, true) && Admits(mod.kspVersionMax, target, false))
  {
  }

  /** A bound that cannot be compared with the target excludes every record that relies
      on it, whatever the other bound says. */
  lemma IncomparableBoundFails(mod: ModRecord, target: string, lower: bool)
    requires !Present(mod.kspVersion)
    requires var b := if lower then mod.kspVersionMin else mod.kspVersionMax;
      b != Some("any") && Compare(Some(target), b, NoOptions) == Incomparable
    ensures !ModIsCompatible(mod, target)
  {
  }

  /** An exact `ksp_version` makes the range fields irrelevant. */
  lemma ExactVersionIgnoresRange(mod: ModRecord, target: string, min: Option<string>, max: Option<string>)
    requires Present(mod.kspVersion)
    ensures ModIsCompatible(mod.(kspVersionMin := min, kspVersionMax := max), target) ==
      ModIsCompatible(mod, target)
  {
  }

  /** A range whose bounds are both the target itself admits it, provided the target is a
      well-formed numeric version. */
  lemma RangeAroundTarget(mod: ModRecord, target: string)
    requires !Present(mod.kspVersion) && target != ""
    requires mod.kspVersionMin == Some(target) && mod.kspVersionMax == Some(target)
    requires AllValid(Parts(target), false)
    ensures ModIsCompatible(mod, target)
  {
    CompareReflexive(Some(target), NoOptions);
  }

  /** The range is an interval of the version order: a version lying between two admitted
      versions is admitted too. */
  lemma RangeIsInterval(lo: string, mid: string, hi: string, start: Option<string>, end: Option<string>)
    requires lo != "" && mid != "" && hi != ""
    requires IsWithinVersionRange(lo, start, end) && IsWithinVersionRange(hi, start, end)
    requires AtMost(Compare(Some(lo), Some(mid), NoOptions)) && AtMost(Compare(Some(mid), Some(hi), NoOptions))
    ensures IsWithinVersionRange(mid, start, end)
  {
    if start != Some("any") && Present(start) {
      var s := start.value;
      CompareSymmetric(Some(lo), start, NoOptions);
      CompareSymmetric(Some(mid), start, NoOptions);
      CompareTransitive(s, lo, mid, false);
    }
    if end != Some("any") && Present(end) {
      CompareTransitive(mid, hi, end.value, false);
    }
  }
}
