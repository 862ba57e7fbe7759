/** The window's application state of src/renderer/state.js: the initial state, the four
    effects and the computed `selectedMod`. Each effect yields a new state in which only the
    fields it returns are replaced. Object keys are strings; `selected` is `null` (`None`) or
    a record id. */
module RendererState {
  import opened Wrappers
  import opened Catalog

  datatype AppState = AppState(
    repository: map<string, ModRecord>,
    installing: map<string, bool>,
    installed: map<string, bool>,
    selected: Option<string>)

  /** `initialState()`. */
  function InitialState(): (s: AppState)
    ensures s.repository == map[] && s.installing == map[] && s.installed == map[]
    ensures s.selected == None
  {
    AppState(map[], map[], map[], None)
  }

  /** The `reduce` that indexes the content by `_id`, a later record overwriting an earlier
      one with the same id. */
  function IndexById(content: seq<ModRecord>): (r: map<string, ModRecord>)
    ensures forall id | id in r :: r[id] in content && r[id].id == id
  {
    if content == [] then map[]
    else
      var last := content[|content| - 1];
      IndexById(content[..|content| - 1])[last.id := last]
  }

  /** `setRepositoryContent(content)`: replaces `repository` only. */
  function SetRepositoryContent(state: AppState, content: seq<ModRecord>): (r: AppState)
    ensures r == state.(repository := r.repository)
    ensures r.repository == IndexById(content)
    ensures forall id | id in r.repository :: r.repository[id] in content && r.repository[id].id == id
  {
    state.(repository := IndexById(content))
  }

  /** The key `__proto__`: assigning to it sets the object's prototype, which a boolean leaves
      unchanged, so it never becomes an own key of a flag map. */
  const ProtoKey: string := "__proto__"

  /** `Object.assign({}, flags, entry)` where `entry[id] = value`: both the copy and the entry
      assign key by key, so a `__proto__` key is dropped on the way. */
  function AssignFlag(flags: map<string, bool>, id: string, value: bool): (r: map<string, bool>)
    ensures ProtoKey !in r
    ensures id != ProtoKey ==> r.Keys == flags.Keys - {ProtoKey} + {id} && r[id] == value
    ensures id == ProtoKey ==> r == flags - {ProtoKey}
    ensures forall k | k in flags && k != id && k != ProtoKey :: k in r && r[k] == flags[k]
  {
    var copied := flags - {ProtoKey};
    if id == ProtoKey then copied else copied[id := value]
  }

  /** `setModInstalling(id, installing)`. */
  function SetModInstalling(state: AppState, id: string, installing: bool): (r: AppState)
    ensures r == state.(installing := r.installing)
    ensures ProtoKey !in r.installing
    ensures id != ProtoKey ==>
      r.installing.Keys == state.installing.Keys - {ProtoKey} + {id} && r.installing[id] == installing
    ensures id == ProtoKey ==> r.installing == state.installing - {ProtoKey}
    ensures forall k | k in state.installing && k != id && k != ProtoKey ::
      k in r.installing && r.installing[k] == state.installing[k]
  {
    state.(installing := AssignFlag(state.installing, id, installing))
  }

  /** `setModInstalled(id, installed)`. */
  function SetModInstalled(state: AppState, id: string, installed: bool): (r: AppState)
    ensures r == state.(installed := r.installed)
    ensures ProtoKey !in r.installed
    ensures id != ProtoKey ==>
      r.installed.Keys == state.installed.Keys - {ProtoKey} + {id} && r.installed[id] == installed
    ensures id == ProtoKey ==> r.installed == state.installed - {ProtoKey}
    ensures forall k | k in state.installed && k != id && k != ProtoKey ::
      k in r.installed && r.installed[k] == state.installed[k]
  {
    state.(installed := AssignFlag(state.installed, id, installed))
  }

  /** `selectMod(id)`. */
  function SelectMod(state: AppState, id: Option<string>): (r: AppState)
    ensures r == state.(selected := id)
  {
    state.(selected := id)
  }

  /** The property key that `repository[selected]` reads: `null` becomes the key "null". */
  function SelectedKey(selected: Option<string>): string {
    match selected
    case None => "null"
    case Some(id) => id
  }

  /** The computed `selectedMod`: `undefined` (`None`) when the key is absent. */
  function SelectedMod(state: AppState): (r: Option<ModRecord>)
    ensures r.Some? <==> SelectedKey(state.selected) in state.repository
    ensures r.Some? ==> r.value == state.repository[SelectedKey(state.selected)]
  {
    var key := SelectedKey(state.selected);
    if key in state.repository then Some(state.repository[key]) else None
  }

  /** The repository holds exactly the ids of the content, each bound to the last record with
      that id. */
  lemma IndexByIdMeaning(content: seq<ModRecord>)
    ensures var r := IndexById(content);
      && r.Keys == (set m | m in content :: m.id)
      && forall i | 0 <= i < |content| && LastWithId(content, i) :: r[content[i].id] == content[i]
  {
    IndexByIdKeys(content);
    forall i | 0 <= i < |content| && LastWithId(content, i)
      ensures content[i].id in IndexById(content) && IndexById(content)[content[i].id] == content[i]
    {
      IndexByIdLast(content, i);
    }
  }

  /** No later record of the content has the id of record `i`. */
  predicate LastWithId(content: seq<ModRecord>, i: nat)
    requires i < |content|
  {
    forall j | i < j < |content| :: content[j].id != content[i].id
  }

  lemma {:induction false} IndexByIdKeys(content: seq<ModRecord>)
    ensures IndexById(content).Keys == (set m | m in content :: m.id)
  {
    if content != [] {
      var n := |content| - 1;
      var front := content[..n];
      IndexByIdKeys(front);
      assert content == front + [content[n]];
      assert (set m | m in content :: m.id) == (set m | m in front :: m.id) + {content[n].id};
    }
  }

  lemma {:induction false} IndexByIdLast(content: seq<ModRecord>, i: nat)
    requires i < |content| && LastWithId(content, i)
    ensures content[i].id in IndexById(content) && IndexById(content)[content[i].id] == content[i]
  {
    var n := |content| - 1;
    if i < n {
      var front := content[..n];
      assert front[i] == content[i];
      assert LastWithId(front, i) by {
        forall j | i < j < |front| ensures front[j].id != front[i].id {
          assert front[j] == content[j];
        }
      }
      IndexByIdLast(front, i);
    }
  }

  /** Setting the same flag twice is setting it once, and flags of different ids commute. */
  lemma InstallingFlags(state: AppState, a: string, b: string, x: bool, y: bool)
    ensures SetModInstalling(SetModInstalling(state, a, x), a, x) == SetModInstalling(state, a, x)
    ensures a != b ==>
      SetModInstalling(SetModInstalling(state, a, x), b, y) == SetModInstalling(SetModInstalling(state, b, y), a, x)
  {
  }

  lemma InstalledFlags(state: AppState, a: string, b: string, x: bool, y: bool)
    ensures SetModInstalled(SetModInstalled(state, a, x), a, x) == SetModInstalled(state, a, x)
    ensures a != b ==>
      SetModInstalled(SetModInstalled(state, a, x), b, y) == SetModInstalled(SetModInstalled(state, b, y), a, x)
  {
  }

  /** After loading content and selecting one of its ids, `selectedMod` is the last record
      with that id. */
  lemma SelectLoadedMod(state: AppState, content: seq<ModRecord>, i: nat)
    requires i < |content| && LastWithId(content, i)
    ensures SelectedMod(SelectMod(SetRepositoryContent(state, content), Some(content[i].id))) == Some(content[i])
  {
    IndexByIdMeaning(content);
  }

  /** Nothing is selected at first, yet `selectedMod` reads the key "null": a record whose id
      is "null" would be shown as selected. */
  lemma NullSelectionReadsNullKey(content: seq<ModRecord>)
    ensures SelectedMod(SetRepositoryContent(InitialState(), content)).Some? <==>
      exists m | m in content :: m.id == "null"
  {
    IndexByIdMeaning(content);
    var r := IndexById(content);
    if "null" in r {
      assert r["null"] in content;
    }
  }
}
