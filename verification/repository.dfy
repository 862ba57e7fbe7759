/** The repository view of src/main/repository.js: `filterMods`, which keeps the records that
    suit the game version and then one record per mod identifier, and the test that decides
    which parsed metadata files are stored. */
module Repository {
  import opened Wrappers
  import opened Versions
  import opened Catalog
  import opened Compatibility

  // ---------------------------------------------------------------------------------------
  // filterMods
  // ---------------------------------------------------------------------------------------

  /** `modList.filter(mod => modIsCompatible(mod, target))`. */
  function FilterCompatible(mods: seq<ModRecord>, target: string): (r: seq<ModRecord>)
    ensures forall m :: m in r <==> m in mods && ModIsCompatible(m, target)
    ensures |r| <= |mods|
  {
    if mods == [] then []
    else
      var rest := FilterCompatible(mods[1..], target);
      if ModIsCompatible(mods[0], target) then [mods[0]] + rest else rest
  }

  /** The test the reduce uses to let a record displace the held one. */
  type NewerTest = (Option<string>, Option<string>) -> bool

  /** `versionCompare(a, b) > 0`. */
  predicate IsNewer(a: Option<string>, b: Option<string>) {
    Compare(a, b, NoOptions) == Greater
  }

  /** The reduce step: a record takes an identifier's slot when the slot is empty or its
      version is newer than the held one's. */
  function Keep(held: map<string, ModRecord>, mod: ModRecord, newer: NewerTest): (r: map<string, ModRecord>)
    ensures r.Keys == held.Keys + {mod.identifier}
    ensures forall k | k in held && k != mod.identifier :: r[k] == held[k]
    ensures r[mod.identifier] == mod || (mod.identifier in held && r[mod.identifier] == held[mod.identifier])
  {
    if mod.identifier !in held || newer(mod.version, held[mod.identifier].version) then
      held[mod.identifier := mod]
    else
      held
  }

  /** The dictionary that the `reduce` builds, record by record. */
  function LatestByIdentifier(mods: seq<ModRecord>, newer: NewerTest): map<string, ModRecord> {
    if mods == [] then map[]
    else Keep(LatestByIdentifier(mods[..|mods| - 1], newer), mods[|mods| - 1], newer)
  }

  /** The body of the `reduce` callback, updating the dictionary in place. */
  method KeepStep(held: map<string, ModRecord>, mod: ModRecord) returns (r: map<string, ModRecord>)
    ensures r == Keep(held, mod, IsNewer)
  {
    r := held;
    var replace := mod.identifier !in held;
    if !replace {
      var c := VersionCompare(mod.version, held[mod.identifier].version, NoOptions);
      replace := c == Greater;
      assert replace == IsNewer(mod.version, held[mod.identifier].version);
    }
    if replace {
      r := r[mod.identifier := mod];
    }
  }

  /** `filterMods(modList)`: the loop updates the dictionary record by record; the result is
      its set of values (`Object.keys(…).map(…)`), whose order is not modelled. */
  method FilterMods(modList: seq<ModRecord>) returns (byIdentifier: map<string, ModRecord>)
    ensures byIdentifier == LatestByIdentifier(FilterCompatible(modList, KspVersion), IsNewer)
  {
    var compatible := FilterCompatible(modList, KspVersion);
    byIdentifier := map[];
    for i := 0 to |compatible|
      invariant byIdentifier == LatestByIdentifier(compatible[..i], IsNewer)
    {
      assert compatible[..i + 1][..i] == compatible[..i];
      byIdentifier := KeepStep(byIdentifier, compatible[i]);
    }
    assert compatible[..|compatible|] == compatible;
  }

  /** The identifiers of some records. */
  function Identifiers(mods: seq<ModRecord>): set<string> {
    set m | m in mods :: m.identifier
  }

  /** The versions of some records. */
  function VersionsOf(mods: seq<ModRecord>): set<Option<string>> {
    set m | m in mods :: m.version
  }

  lemma PrefixSlices<T>(s: seq<T>, i: nat)
    requires i < |s|
    ensures s[..|s| - 1] + [s[|s| - 1]] == s
    ensures i < |s| - 1 ==> s[i] in s[..|s| - 1] && s[..|s| - 1][i] == s[i] && s[..|s| - 1][..i + 1] == s[..i + 1]
    ensures i == |s| - 1 ==> s[..|s| - 1] == s[..i]
    ensures forall x | x in s[..|s| - 1] :: x in s
    ensures forall x | x in s :: x in s[..|s| - 1] || x == s[|s| - 1]
  {
    forall x | x in s ensures x in s[..|s| - 1] || x == s[|s| - 1] {
      var j :| 0 <= j < |s| && s[j] == x;
      if j < |s| - 1 {
        assert s[..|s| - 1][j] == x;
      }
    }
  }

  /** One record per identifier that occurs, each taken from the input under its own
      identifier, whatever the test. */
  lemma LatestShape(mods: seq<ModRecord>, newer: NewerTest)
    ensures LatestByIdentifier(mods, newer).Keys == Identifiers(mods)
    ensures TakenFrom(LatestByIdentifier(mods, newer), mods)
  {
    LatestKeys(mods, newer);
    LatestValues(mods, newer);
  }

  lemma {:induction false} LatestKeys(mods: seq<ModRecord>, newer: NewerTest)
    ensures LatestByIdentifier(mods, newer).Keys == Identifiers(mods)
  {
    if mods != [] {
      var front := mods[..|mods| - 1];
      var last := mods[|mods| - 1];
      LatestKeys(front, newer);
      PrefixSlices(mods, 0);
      assert forall m | m in mods :: m in front || m == last;
      assert Identifiers(mods) == Identifiers(front) + {last.identifier};
    }
  }

  lemma {:induction false} LatestValues(mods: seq<ModRecord>, newer: NewerTest)
    ensures TakenFrom(LatestByIdentifier(mods, newer), mods)
  {
    if mods != [] {
      var front := mods[..|mods| - 1];
      var last := mods[|mods| - 1];
      var held := LatestByIdentifier(front, newer);
      LatestValues(front, newer);
      PrefixSlices(mods, 0);
      var r := LatestByIdentifier(mods, newer);
      forall k | k in r ensures r[k] in mods && r[k].identifier == k {
        assert r == Keep(held, last, newer);
        if r[k] != last {
          assert r[k] == held[k];
        }
      }
    }
  }

  /** What `filterMods` returns: exactly one record for each identifier that has a record
      compatible with the game version, and only compatible records. */
  lemma FilterModsResult(modList: seq<ModRecord>)
    ensures LatestByIdentifier(FilterCompatible(modList, KspVersion), IsNewer).Keys ==
      (set m | m in modList && ModIsCompatible(m, KspVersion) :: m.identifier)
    ensures TakenFrom(LatestByIdentifier(FilterCompatible(modList, KspVersion), IsNewer), FilterCompatible(modList, KspVersion))
  {
    var compatible := FilterCompatible(modList, KspVersion);
    LatestShape(compatible, IsNewer);
    assert Identifiers(compatible) == set m | m in modList && ModIsCompatible(m, KspVersion) :: m.identifier;
  }

  /** A record whose version is not newer than the held one leaves the dictionary as it is;
      in particular an incomparable version never displaces anything. */
  lemma KeepRefuses(held: map<string, ModRecord>, mod: ModRecord)
    requires mod.identifier in held
    requires Compare(mod.version, held[mod.identifier].version, NoOptions) in {Less, Equal, Incomparable}
    ensures Keep(held, mod, IsNewer) == held
  {
  }

  // ---------------------------------------------------------------------------------------
  // Identifiers that a plain object inherits
  // ---------------------------------------------------------------------------------------

  /** The property names every `{}` inherits from `Object.prototype`. Reading one from a
      dictionary that does not hold it gives a truthy value (a function, or the prototype
      itself) whose `version` is `undefined`. */
  predicate Inherited(key: string) {
    key in {"constructor", "__proto__", "toString", "toLocaleString", "valueOf", "hasOwnProperty",
            "isPrototypeOf", "propertyIsEnumerable", "__defineGetter__", "__defineSetter__",
            "__lookupGetter__", "__lookupSetter__"}
  }

  /** The reduce step exactly as written: for an identifier the dictionary inherits but does
      not hold, `!list[id]` is false, so the record must be newer than `undefined`. */
  function KeepAsWritten(held: map<string, ModRecord>, mod: ModRecord, newer: NewerTest): map<string, ModRecord> {
    if mod.identifier !in held && Inherited(mod.identifier) then
      (if newer(mod.version, None) then held[mod.identifier := mod] else held)
    else
      Keep(held, mod, newer)
  }

  /** The dictionary that the `reduce` builds as written. */
  function LatestByIdentifierAsWritten(mods: seq<ModRecord>, newer: NewerTest): map<string, ModRecord> {
    if mods == [] then map[]
    else KeepAsWritten(LatestByIdentifierAsWritten(mods[..|mods| - 1], newer), mods[|mods| - 1], newer)
  }

  /** As written, a record whose identifier is inherited is never kept, since
      `versionCompare(version, undefined)` is 0. */
  lemma {:induction false} InheritedNeverStored(mods: seq<ModRecord>)
    ensures forall k | Inherited(k) :: k !in LatestByIdentifierAsWritten(mods, IsNewer)
  {
    if mods != [] {
      var front := mods[..|mods| - 1];
      var last := mods[|mods| - 1];
      InheritedNeverStored(front);
      assert !IsNewer(last.version, None);
    }
  }

  /** On every other identifier, the reduce as written and the intended one agree. */
  lemma {:induction false} AsWrittenAgreesElsewhere(mods: seq<ModRecord>, newer: NewerTest)
    ensures forall k | !Inherited(k) ::
      (k in LatestByIdentifierAsWritten(mods, newer) <==> k in LatestByIdentifier(mods, newer)) &&
      (k in LatestByIdentifier(mods, newer) ==>
        LatestByIdentifierAsWritten(mods, newer)[k] == LatestByIdentifier(mods, newer)[k])
  {
    if mods != [] {
      AsWrittenAgreesElsewhere(mods[..|mods| - 1], newer);
    }
  }

  /** A single compatible record named, say, "constructor" is lost as written, while the
      intended reduce keeps it. */
  lemma InheritedIdentifierLost(m: ModRecord)
    requires Inherited(m.identifier)
    ensures LatestByIdentifierAsWritten([m], IsNewer) == map[]
    ensures LatestByIdentifier([m], IsNewer) == map[m.identifier := m]
  {
    assert [m][..0] == [];
    assert !IsNewer(m.version, None);
  }

  /** Every entry of the dictionary is a record of the list filed under its own identifier. */
  predicate TakenFrom(r: map<string, ModRecord>, mods: seq<ModRecord>) {
    forall k | k in r :: r[k] in mods && r[k].identifier == k
  }

  /** No record of the list is newer than the entry filed under its identifier. */
  predicate NoneNewer(r: map<string, ModRecord>, mods: seq<ModRecord>, newer: NewerTest) {
    forall m | m in mods :: m.identifier in r && !newer(m.version, r[m.identifier].version)
  }

  /** The entry filed under the record's identifier is at least as new as the record. */
  predicate AtLeastAsNewAs(r: map<string, ModRecord>, m: ModRecord) {
    m.identifier in r && AtMost(Compare(m.version, r[m.identifier].version, NoOptions))
  }

  /** No version is newer than itself. */
  predicate Irreflexive(newer: NewerTest, vs: set<Option<string>>) {
    forall a | a in vs :: !newer(a, a)
  }

  /** The test is transitive on the given versions. */
  predicate Transitive(newer: NewerTest, vs: set<Option<string>>) {
    forall a, b, c | a in vs && b in vs && c in vs :: newer(a, b) && newer(b, c) ==> newer(a, c)
  }

  /** Something newer than `b` is newer than whatever `b` is not older than. */
  predicate NegativelyTransitive(newer: NewerTest, vs: set<Option<string>>) {
    forall a, b, c | a in vs && b in vs && c in vs :: !newer(a, b) && newer(c, b) ==> newer(c, a)
  }

  /** With a transitive test, no record is newer than the one kept for its identifier. */
  lemma {:induction false} LatestIsMaximal(mods: seq<ModRecord>, newer: NewerTest)
    requires Irreflexive(newer, VersionsOf(mods)) && Transitive(newer, VersionsOf(mods))
    ensures NoneNewer(LatestByIdentifier(mods, newer), mods, newer)
  {
    if mods != [] {
      var front := mods[..|mods| - 1];
      var last := mods[|mods| - 1];
      PrefixSlices(mods, 0);
      assert VersionsOf(front) <= VersionsOf(mods);
      LatestIsMaximal(front, newer);
      LatestShape(front, newer);
      var r := LatestByIdentifier(mods, newer);
      forall m | m in mods
        ensures m.identifier in r && !newer(m.version, r[m.identifier].version)
      {
        NotNewerThanKept(front, last, m, newer);
      }
    }
  }

  /** The step of `LatestIsMaximal` for one record. */
  lemma NotNewerThanKept(front: seq<ModRecord>, last: ModRecord, m: ModRecord, newer: NewerTest)
    requires m in front + [last]
    requires Irreflexive(newer, VersionsOf(front + [last])) && Transitive(newer, VersionsOf(front + [last]))
    requires NoneNewer(LatestByIdentifier(front, newer), front, newer)
    requires TakenFrom(LatestByIdentifier(front, newer), front)
    ensures m.identifier in Keep(LatestByIdentifier(front, newer), last, newer)
    ensures !newer(m.version, Keep(LatestByIdentifier(front, newer), last, newer)[m.identifier].version)
  {
    var held := LatestByIdentifier(front, newer);
    var r := Keep(held, last, newer);
    var k := m.identifier;
    var vs := VersionsOf(front + [last]);
    assert last.version in vs;
    if m != last && r[k] != held[k] {
      assert m in front && held[k] in front;
      assert m.version in vs && held[k].version in vs;
    }
  }

  /** Ties go to the earliest record: unless the kept record is newer than record `i` of the
      same identifier, it comes no later than record `i`. */
  lemma {:induction false} EarliestNewestWins(mods: seq<ModRecord>, newer: NewerTest, i: nat)
    requires Irreflexive(newer, VersionsOf(mods)) && Transitive(newer, VersionsOf(mods))
    requires NegativelyTransitive(newer, VersionsOf(mods))
    requires i < |mods|
    requires mods[i].identifier in LatestByIdentifier(mods, newer)
    requires !newer(LatestByIdentifier(mods, newer)[mods[i].identifier].version, mods[i].version)
    ensures LatestByIdentifier(mods, newer)[mods[i].identifier] in mods[..i + 1]
  {
    var n := |mods| - 1;
    var front := mods[..n];
    var last := mods[n];
    var k := mods[i].identifier;
    var held := LatestByIdentifier(front, newer);
    var r := LatestByIdentifier(mods, newer);
    PrefixSlices(mods, i);
    LatestShape(front, newer);
    if i == n {
      if r[k] != last {
        assert r[k] == held[k] && held[k] in front;
      }
    } else {
      assert VersionsOf(front) <= VersionsOf(mods);
      LatestIsMaximal(front, newer);
      assert held[k] in front;
      assert mods[i].version in VersionsOf(mods) && last.version in VersionsOf(mods) && held[k].version in VersionsOf(mods);
      assert r[k] == held[k];
      EarliestNewestWins(front, newer, i);
    }
  }

  /** The first record of an identifier stays when no version is newer than its own. */
  lemma {:induction false} FirstRecordStays(mods: seq<ModRecord>, newer: NewerTest, i: nat)
    requires i < |mods|
    requires forall j | 0 <= j < i :: mods[j].identifier != mods[i].identifier
    requires forall m | m in mods :: !newer(m.version, mods[i].version)
    ensures mods[i].identifier in LatestByIdentifier(mods, newer)
    ensures LatestByIdentifier(mods, newer)[mods[i].identifier] == mods[i]
  {
    var n := |mods| - 1;
    var front := mods[..n];
    var k := mods[i].identifier;
    PrefixSlices(mods, i);
    if i == n {
      LatestKeys(front, newer);
      assert k !in Identifiers(front) by {
        forall m | m in front ensures m.identifier != k {
          var j :| 0 <= j < n && front[j] == m;
        }
      }
    } else {
      assert forall j | 0 <= j < i :: front[j] == mods[j];
      FirstRecordStays(front, newer, i);
      assert !newer(mods[n].version, mods[i].version);
    }
  }

  // Instances for versionCompare

  /** `versionCompare(a, a)` is never 1: it is 0, or NaN for an invalid version. */
  lemma IsNewerIrreflexive(vs: set<Option<string>>)
    ensures Irreflexive(IsNewer, vs)
  {
    forall a | a in vs ensures !IsNewer(a, a) {
      CompareReflexive(a, NoOptions);
    }
  }

  /** `versionCompare(a, b) > 0` is transitive on all inputs: a 1 needs two valid versions. */
  lemma IsNewerTransitive(vs: set<Option<string>>)
    ensures Transitive(IsNewer, vs)
  {
    forall a, b, c | a in vs && b in vs && c in vs && IsNewer(a, b) && IsNewer(b, c)
      ensures IsNewer(a, c)
    {
      NewerChain(a, b, c);
    }
  }

  lemma NewerChain(a: Option<string>, b: Option<string>, c: Option<string>)
    requires IsNewer(a, b) && IsNewer(b, c)
    ensures IsNewer(a, c)
  {
    CompareSymmetric(a, b, NoOptions);
    CompareSymmetric(b, c, NoOptions);
    CompareSymmetric(a, c, NoOptions);
    CompareTransitive(c.value, b.value, a.value, false);
  }

  /** A version that is present and has only numeric parts. */
  predicate ValidVersion(v: Option<string>) {
    Present(v) && AllValid(Parts(v.value), false)
  }

  lemma IsNewerNegativelyTransitive(vs: set<Option<string>>)
    requires forall v | v in vs :: ValidVersion(v)
    ensures NegativelyTransitive(IsNewer, vs)
  {
    forall a, b, c | a in vs && b in vs && c in vs && !IsNewer(a, b) && IsNewer(c, b)
      ensures IsNewer(c, a)
    {
      NewerThanNotNewer(a, b, c);
    }
  }

  lemma NewerThanNotNewer(a: Option<string>, b: Option<string>, c: Option<string>)
    requires ValidVersion(a) && ValidVersion(b) && ValidVersion(c)
    requires !IsNewer(a, b) && IsNewer(c, b)
    ensures IsNewer(c, a)
  {
    assert Compare(a, b, NoOptions) != Incomparable;
    BelowThroughGreater(a, b, c);
  }

  /** When every version is valid, the kept record of an identifier is at least as new as
      every record with that identifier. */
  lemma LatestIsNewest(mods: seq<ModRecord>)
    requires forall m | m in mods :: ValidVersion(m.version)
    ensures forall m | m in mods :: AtLeastAsNewAs(LatestByIdentifier(mods, IsNewer), m)
  {
    IsNewerIrreflexive(VersionsOf(mods));
    IsNewerTransitive(VersionsOf(mods));
    LatestIsMaximal(mods, IsNewer);
    LatestShape(mods, IsNewer);
  }

  /** When every version is valid, a record whose version equals the kept one's comes no
      earlier than the kept record: the first newest record wins. */
  lemma FirstNewestWins(mods: seq<ModRecord>, i: nat)
    requires forall m | m in mods :: ValidVersion(m.version)
    requires i < |mods|
    requires mods[i].identifier in LatestByIdentifier(mods, IsNewer)
    requires Compare(mods[i].version, LatestByIdentifier(mods, IsNewer)[mods[i].identifier].version, NoOptions) == Equal
    ensures LatestByIdentifier(mods, IsNewer)[mods[i].identifier] in mods[..i + 1]
  {
    var r := LatestByIdentifier(mods, IsNewer);
    IsNewerIrreflexive(VersionsOf(mods));
    IsNewerTransitive(VersionsOf(mods));
    IsNewerNegativelyTransitive(VersionsOf(mods));
    CompareSymmetric(mods[i].version, r[mods[i].identifier].version, NoOptions);
    EarliestNewestWins(mods, IsNewer, i);
  }

  /** A version that no comparison can beat: missing (every comparison with it is 0) or with
      an invalid part (every comparison with it is NaN). */
  predicate Unbeatable(v: Option<string>) {
    !Present(v) || !AllValid(Parts(v.value), false)
  }

  /** The first record of an identifier is never displaced when its version is missing or
      invalid, however new the later ones are. */
  lemma UnbeatableFirstRecordStays(mods: seq<ModRecord>, i: nat)
    requires i < |mods| && Unbeatable(mods[i].version)
    requires forall j | 0 <= j < i :: mods[j].identifier != mods[i].identifier
    ensures mods[i].identifier in LatestByIdentifier(mods, IsNewer)
    ensures LatestByIdentifier(mods, IsNewer)[mods[i].identifier] == mods[i]
  {
    forall m | m in mods ensures !IsNewer(m.version, mods[i].version) {
    }
    FirstRecordStays(mods, IsNewer, i);
  }

  // ---------------------------------------------------------------------------------------
  // Ingesting the metadata files
  // ---------------------------------------------------------------------------------------

  /** A value produced by `JSON.parse`. */
  datatype JsonValue =
    | JNull
    | JBool(b: bool)
    | JNumber(n: real)
    | JString(s: string)
    | JArray(items: seq<JsonValue>)
    | JObject(fields: map<string, JsonValue>)

  /** JavaScript truthiness of a parsed value (JSON has no NaN). */
  predicate Truthy(v: JsonValue) {
    match v
    case JNull => false
    case JBool(b) => b
    case JNumber(n) => n != 0.0
    case JString(s) => s != ""
    case _ => true
  }

  /** `value[name]` is truthy; only objects carry the fields asked about here. */
  predicate HasTruthyField(v: JsonValue, name: string) {
    v.JObject? && name in v.fields && Truthy(v.fields[name])
  }

  /** The `try` block reaches `modDB.insert(parsed)`: the text parses (`None` when
      `JSON.parse` throws), the result is not `null` (reading a field of `null` throws), and
      it has neither a truthy `repositories` nor a truthy `builds` field. */
  predicate Stored(parsed: Option<JsonValue>) {
    match parsed
    case None => false
    case Some(v) => v != JNull && !HasTruthyField(v, "repositories") && !HasTruthyField(v, "builds")
  }

  /** The records inserted while reading the metadata files, in order. */
  function Ingest(entries: seq<string>, parse: string -> Option<JsonValue>): (r: seq<JsonValue>)
    ensures forall v :: v in r <==> exists e | e in entries :: parse(e) == Some(v) && Stored(Some(v))
    ensures |r| <= |entries|
  {
    if entries == [] then []
    else
      var rest := Ingest(entries[1..], parse);
      var p := parse(entries[0]);
      assert forall e | e in entries[1..] :: e in entries;
      assert forall e | e in entries :: e == entries[0] || e in entries[1..];
      if Stored(p) then [p.value] + rest else rest
  }

  /** Ingesting keeps the order of the files: the records of a first batch of files come
      before those of a second. */
  lemma {:induction false} IngestAppend(a: seq<string>, b: seq<string>, parse: string -> Option<JsonValue>)
    ensures Ingest(a + b, parse) == Ingest(a, parse) + Ingest(b, parse)
  {
    if a == [] {
      assert a + b == b;
    } else {
      assert (a + b)[0] == a[0] && (a + b)[1..] == a[1..] + b;
      IngestAppend(a[1..], b, parse);
    }
  }

  /** One file yields its parsed value exactly when it is stored. */
  lemma IngestOne(e: string, parse: string -> Option<JsonValue>)
    ensures Ingest([e], parse) == if Stored(parse(e)) then [parse(e).value] else []
  {
    assert [e][1..] == [];
  }

  /** An entry listing other repositories, or build information, is dropped; a plain object
      is stored whatever else it holds. */
  lemma IngestRule(fields: map<string, JsonValue>)
    ensures ("repositories" in fields && Truthy(fields["repositories"])) ==> !Stored(Some(JObject(fields)))
    ensures ("builds" in fields && Truthy(fields["builds"])) ==> !Stored(Some(JObject(fields)))
    ensures (("repositories" !in fields || !Truthy(fields["repositories"])) &&
             ("builds" !in fields || !Truthy(fields["builds"]))) ==> Stored(Some(JObject(fields)))
  {
  }
}
