/** The catalog records the mod manager reads from its repository database (CKAN metadata
    files), reduced to the fields the modelled code looks at. A JavaScript property that is
    `undefined` is `None`. */
module Catalog {
  import opened Wrappers

  /** An entry of `depends`, `recommends` or `suggests`: the identifier of another mod. */
  datatype Relationship = Relationship(name: string)

  /** One entry of a record's `install` list. Only the first of `file`, `find` and
      `find_regexp` that is set and non-empty is used. */
  datatype Directive = Directive(
    file: Option<string>,
    find: Option<string>,
    findRegexp: Option<string>,
    installTo: Option<string>)

  /** A catalog record. `id` is the database key `_id`; `identifier` names the mod, shared by
      all its versions. An absent relationship list is the empty list (`mod.depends || []`);
      an absent `install` list selects the default GameData convention, while an empty one
      installs nothing. */
  datatype ModRecord = ModRecord(
    id: string,
    identifier: string,
    version: Option<string>,
    kind: Option<string>,
    kspVersion: Option<string>,
    kspVersionMin: Option<string>,
    kspVersionMax: Option<string>,
    depends: seq<Relationship>,
    recommends: seq<Relationship>,
    suggests: seq<Relationship>,
    install: Option<seq<Directive>>)

  /** `mod.kind === 'metapackage'`: a record that only gathers dependencies. */
  predicate IsMetapackage(mod: ModRecord) {
    mod.kind == Some("metapackage")
  }
}
