/** Dependency lookup for the install dialog: `getMod`, `getDependency` and
    `resolveDependencies` of src/main/installMod.js, with the repository database given as
    the sequence of its records. */
module Dependencies {
  import opened Wrappers
  import opened Catalog
  import opened Compatibility

  /** `{ name, versions }`: the compatible records of one related mod. */
  datatype Dependency = Dependency(name: string, versions: seq<ModRecord>)

  /** The reply to `resolveDependencies`. */
  datatype Resolution = Resolution(
    autoResolvable: bool,
    dependencies: seq<Dependency>,
    recommendations: seq<Dependency>,
    suggestions: seq<Dependency>)

  /** `getMod({ _id: id })`: the record stored under that key, if any. */
  function FindById(catalog: seq<ModRecord>, id: string): (r: Option<ModRecord>)
    ensures r.None? <==> forall m | m in catalog :: m.id != id
    ensures r.Some? ==> r.value in catalog && r.value.id == id
  {
    if catalog == [] then None
    else if catalog[0].id == id then Some(catalog[0])
    else FindById(catalog[1..], id)
  }

  /** `getMod({ identifier: name }, false)` filtered by `modIsCompatible`: the records of
      that mod which suit the target, in catalog order. */
  function CompatibleVersions(catalog: seq<ModRecord>, name: string, target: string): (r: seq<ModRecord>)
    ensures forall m :: m in r <==> m in catalog && m.identifier == name && ModIsCompatible(m, target)
    ensures |r| <= |catalog|
  {
    if catalog == [] then []
    else
      var rest := CompatibleVersions(catalog[1..], name, target);
      var m := catalog[0];
      if m.identifier == name && ModIsCompatible(m, target) then [m] + rest else rest
  }

  /** `getDependency(dependency, target)`. Only `identifier` is matched; a mod that
      `provides` the name is not found. */
  function GetDependency(catalog: seq<ModRecord>, dependency: Relationship, target: string): (r: Dependency)
    ensures r.name == dependency.name
    ensures forall m :: m in r.versions <==>
      m in catalog && m.identifier == dependency.name && ModIsCompatible(m, target)
  {
    Dependency(dependency.name, CompatibleVersions(catalog, dependency.name, target))
  }

  function GetDependencies(catalog: seq<ModRecord>, relations: seq<Relationship>, target: string): (r: seq<Dependency>)
    ensures |r| == |relations|
    ensures forall i | 0 <= i < |relations| :: r[i] == GetDependency(catalog, relations[i], target)
  {
    seq(|relations|, i requires 0 <= i < |relations| => GetDependency(catalog, relations[i], target))
  }

  /** The `reduce` that computes `autoResolvable`: true, and-ed with `versions.length > 0` for
      every dependency in turn. */
  function AllHaveVersions(deps: seq<Dependency>): bool {
    if deps == [] then true
    else AllHaveVersions(deps[..|deps| - 1]) && |deps[|deps| - 1].versions| > 0
  }

  /** The answer for a record that was found. */
  function Resolve(catalog: seq<ModRecord>, mod: ModRecord, target: string): Resolution {
    var dependencies := GetDependencies(catalog, mod.depends, target);
    Resolution(
      AllHaveVersions(dependencies),
      dependencies,
      GetDependencies(catalog, mod.recommends, target),
      GetDependencies(catalog, mod.suggests, target))
  }

  /** `resolveDependencies({ _id: id }, target)`. When no record has that key, reading
      `mod.depends` throws and no answer is sent: `None`. */
  function ResolveDependencies(catalog: seq<ModRecord>, id: string, target: string): (r: Option<Resolution>)
    ensures r.None? <==> forall m | m in catalog :: m.id != id
  {
    match FindById(catalog, id)
    case None => None
    case Some(mod) => Some(Resolve(catalog, mod, target))
  }

  /** The `reduce` is true exactly when no dependency is left without a version. */
  lemma {:induction false} AllHaveVersionsMeaning(deps: seq<Dependency>)
    ensures AllHaveVersions(deps) <==> forall i | 0 <= i < |deps| :: |deps[i].versions| > 0
  {
    if deps != [] {
      AllHaveVersionsMeaning(deps[..|deps| - 1]);
    }
  }

  /** Some record of the named mod suits the target. */
  predicate HasCompatibleRecord(catalog: seq<ModRecord>, name: string, target: string) {
    exists m | m in catalog :: m.identifier == name && ModIsCompatible(m, target)
  }

  /** A record is auto-resolvable exactly when every entry of its `depends` names a mod with
      at least one compatible record in the catalog; the answer lists one entry per
      relationship, in order. */
  lemma ResolveMeaning(catalog: seq<ModRecord>, mod: ModRecord, target: string)
    ensures Resolve(catalog, mod, target).autoResolvable <==>
      forall d | d in mod.depends :: HasCompatibleRecord(catalog, d.name, target)
    ensures |Resolve(catalog, mod, target).dependencies| == |mod.depends|
    ensures |Resolve(catalog, mod, target).recommendations| == |mod.recommends|
    ensures |Resolve(catalog, mod, target).suggestions| == |mod.suggests|
  {
    var deps := GetDependencies(catalog, mod.depends, target);
    AllHaveVersionsMeaning(deps);
    forall i | 0 <= i < |deps|
      ensures |deps[i].versions| > 0 <==> HasCompatibleRecord(catalog, mod.depends[i].name, target)
    {
      if |deps[i].versions| > 0 {
        assert deps[i].versions[0] in deps[i].versions;
      }
      if HasCompatibleRecord(catalog, mod.depends[i].name, target) {
        var m :| m in catalog && m.identifier == mod.depends[i].name && ModIsCompatible(m, target);
        assert m in deps[i].versions;
      }
    }
    if forall d | d in mod.depends :: HasCompatibleRecord(catalog, d.name, target) {
      forall i | 0 <= i < |deps| ensures |deps[i].versions| > 0 {
        assert mod.depends[i] in mod.depends;
      }
    }
    if AllHaveVersions(deps) {
      forall d | d in mod.depends ensures HasCompatibleRecord(catalog, d.name, target) {
        var i :| 0 <= i < |mod.depends| && mod.depends[i] == d;
      }
    }
  }

  /** `resolveDependencies` for a key that exists: the answer of `ResolveMeaning` for the
      record stored under it. */
  lemma ResolutionMeaning(catalog: seq<ModRecord>, id: string, target: string)
    requires ResolveDependencies(catalog, id, target).Some?
    ensures ResolveDependencies(catalog, id, target).value.autoResolvable <==>
      forall d | d in FindById(catalog, id).value.depends :: HasCompatibleRecord(catalog, d.name, target)
    ensures |ResolveDependencies(catalog, id, target).value.dependencies| == |FindById(catalog, id).value.depends|
  {
    ResolveMeaning(catalog, FindById(catalog, id).value, target);
  }

  /** `recommends` and `suggests` never change `autoResolvable`. */
  lemma OptionalRelationsIgnored(catalog: seq<ModRecord>, mod: ModRecord, recommends: seq<Relationship>,
                                 suggests: seq<Relationship>, target: string)
    ensures Resolve(catalog, mod.(recommends := recommends, suggests := suggests), target).autoResolvable ==
      Resolve(catalog, mod, target).autoResolvable
  {
  }
}
