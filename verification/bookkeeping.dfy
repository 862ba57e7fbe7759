/** The `installMods` message handler of src/main/installMod.js: the batch's ids are recorded
    in the installed-mods database before anything is installed, and all of them are removed
    again when any mod of the batch fails. The batch is one sequential step whose outcome the
    environment decides: whether a download and unpack succeeds, and whether a copy succeeds. */
module Bookkeeping {
  import opened Wrappers
  import opened Catalog
  import opened Dependencies
  import opened InstallPlan

  /** An unpacked archive: `{ directory, files }` as `unpackArchive` resolves it. */
  datatype Archive = Archive(directory: string, files: seq<string>)

  /** What the outside world does with a batch. `unpack` is `None` for a record whose
      download or unpacking is rejected. */
  datatype Environment = Environment(
    unpack: ModRecord -> Option<Archive>,
    copySucceeds: CopyOperation -> bool,
    regexMatch: RegexMatch,
    gameDirectory: string)

  /** The message sent back to the window. */
  datatype Reply = InstalledMods(ids: seq<string>) | FailedToInstallMods(ids: seq<string>)

  /** The promise of `installMod(mod)` resolves: a metapackage at once; any other record when
      its archive is unpacked, its plan does not throw and every copy succeeds. */
  predicate InstallModSucceeds(mod: ModRecord, env: Environment) {
    IsMetapackage(mod) ||
    match env.unpack(mod)
    case None => false
    case Some(archive) =>
      match PlanInstall(mod, archive.directory, archive.files, env.gameDirectory, env.regexMatch)
      case Err(_) => false
      case Ok(ops) => forall op | op in ops :: env.copySucceeds(op)
  }

  /** One id of the batch installs: its record exists (otherwise `installMod(null)` throws)
      and installs. */
  predicate IdInstalls(catalog: seq<ModRecord>, id: string, env: Environment) {
    match FindById(catalog, id)
    case None => false
    case Some(mod) => InstallModSucceeds(mod, env)
  }

  /** `installMods(modList)` resolves: every id installs (`Promise.all`). */
  predicate BatchSucceeds(catalog: seq<ModRecord>, modList: seq<string>, env: Environment) {
    forall i | 0 <= i < |modList| :: IdInstalls(catalog, modList[i], env)
  }

  function Ids(modList: seq<string>): set<string> {
    set id | id in modList
  }

  /** The installed records after a batch: kept on success, all of the batch's ids gone on
      failure. */
  function RecordsAfter(before: set<string>, modList: seq<string>, succeeded: bool): (r: set<string>)
    ensures succeeded ==> forall id | id in modList :: id in r
    ensures !succeeded ==> forall id | id in modList :: id !in r
    ensures forall id | id !in modList :: (id in r <==> id in before)
  {
    if succeeded then before + Ids(modList) else before - Ids(modList)
  }

  /** The installed-mods database: the `_id`s of the records inserted into it. */
  class InstallRegistry {
    var installed: set<string>

    constructor ()
      ensures installed == {}
    {
      installed := {};
    }

    /** `installedDB.insert({ _id: id })`; inserting a key that is already there fails
        silently, which leaves the set as it is. */
    method Insert(id: string)
      modifies this
      ensures installed == old(installed) + {id}
    {
      installed := installed + {id};
    }

    /** `installedDB.remove({ _id: id }, {})`. */
    method Remove(id: string)
      modifies this
      ensures installed == old(installed) - {id}
    {
      installed := installed - {id};
    }

    /** The handler: record every id, run the batch, then reply and, on failure, remove every
        id of the batch. */
    method HandleInstallMods(modList: seq<string>, catalog: seq<ModRecord>, env: Environment) returns (reply: Reply)
      modifies this
      ensures var ok := BatchSucceeds(catalog, modList, env);
        && installed == RecordsAfter(old(installed), modList, ok)
        && reply == if ok then InstalledMods(modList) else FailedToInstallMods(modList)
    {
      for i := 0 to |modList|
        invariant installed == old(installed) + Ids(modList[..i])
      {
        assert Ids(modList[..i + 1]) == Ids(modList[..i]) + {modList[i]};
        Insert(modList[i]);
      }
      assert modList[..|modList|] == modList;
      if BatchSucceeds(catalog, modList, env) {
        reply := InstalledMods(modList);
      } else {
        reply := FailedToInstallMods(modList);
        ghost var recorded := installed;
        for i := 0 to |modList|
          invariant installed == recorded - Ids(modList[..i])
        {
          assert Ids(modList[..i + 1]) == Ids(modList[..i]) + {modList[i]};
          Remove(modList[i]);
        }
        assert modList[..|modList|] == modList;
      }
    }
  }

  /** A batch fails as soon as one id fails, however the others fare; in particular an id
      without a record fails the batch. */
  lemma OneFailureFailsBatch(catalog: seq<ModRecord>, modList: seq<string>, env: Environment, i: nat)
    requires i < |modList| && !IdInstalls(catalog, modList[i], env)
    ensures !BatchSucceeds(catalog, modList, env)
  {
  }

  lemma UnknownIdFailsBatch(catalog: seq<ModRecord>, modList: seq<string>, env: Environment, id: string)
    requires id in modList && forall m | m in catalog :: m.id != id
    ensures !BatchSucceeds(catalog, modList, env)
  {
    var i :| 0 <= i < |modList| && modList[i] == id;
    OneFailureFailsBatch(catalog, modList, env, i);
  }

  /** A batch of existing metapackages succeeds whatever the environment does. */
  lemma MetapackagesNeedNothing(catalog: seq<ModRecord>, modList: seq<string>, env: Environment)
    requires forall id | id in modList :: FindById(catalog, id).Some? && IsMetapackage(FindById(catalog, id).value)
    ensures BatchSucceeds(catalog, modList, env)
  {
    forall i | 0 <= i < |modList| ensures IdInstalls(catalog, modList[i], env) {
      assert modList[i] in modList;
    }
  }

  /** The outcome does not depend on the order of the batch. */
  lemma BatchOrderIrrelevant(catalog: seq<ModRecord>, a: seq<string>, b: seq<string>, env: Environment)
    ensures BatchSucceeds(catalog, a + b, env) == BatchSucceeds(catalog, b + a, env)
  {
    if BatchSucceeds(catalog, a + b, env) {
      forall i | 0 <= i < |b + a| ensures IdInstalls(catalog, (b + a)[i], env) {
        if i < |b| { assert (b + a)[i] == (a + b)[|a| + i]; } else { assert (b + a)[i] == (a + b)[i - |b|]; }
      }
    }
    if BatchSucceeds(catalog, b + a, env) {
      forall i | 0 <= i < |a + b| ensures IdInstalls(catalog, (a + b)[i], env) {
        if i < |a| { assert (a + b)[i] == (b + a)[|b| + i]; } else { assert (a + b)[i] == (b + a)[i - |a|]; }
      }
    }
  }

  /** A failed batch also forgets ids recorded by an earlier, successful batch. */
  lemma FailureForgetsEarlierBatches(before: set<string>, first: seq<string>, second: seq<string>, id: string)
    requires id in first && id in second
    ensures id !in RecordsAfter(RecordsAfter(before, first, true), second, false)
  {
  }
}
