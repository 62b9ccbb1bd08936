/**
 * The project file of dbi/core/project_io.py as a typed document: what `save_project` writes
 * for a `ProjectState` and what `load_project` rebuilds from it. JSON text, the file and the
 * number conversions are outside the model; a document is the decoded JSON object.
 */
module ProjectIO {
  import opened Wrappers
  import opened Model

  /** A decoded JSON value, as `json.loads` returns it. */
  datatype Value =
    | Null
    | Bool(b: bool)
    | Num(n: real)
    | Str(s: string)
    | Arr(items: seq<Value>)
    | Obj(fields: map<string, Value>)

  /** Python's `bool(v)` on a decoded JSON value. */
  predicate Truthy(v: Value)
  {
    match v
    case Null => false
    case Bool(b) => b
    case Num(n) => n != 0.0
    case Str(s) => |s| > 0
    case Arr(items) => |items| > 0
    case Obj(fields) => |fields| > 0
  }

  /** The top-level object of a project file. The data and group records carry exactly the keys
      `save_project` writes; the two flags and `ui` may be missing, as `d.get` allows. */
  datatype Document = Document(
    data: DataSet,
    assignment: seq<int>,
    groups: seq<Group>,
    breather: BreatherParams,
    applyLocalizing: Option<Value>,
    preserveBaseSelection: Option<Value>,
    ui: Option<Value>)

  /** `bool(d.get(key, True))`. */
  predicate Flag(v: Option<Value>)
  {
    v.None? || Truthy(v.value)
  }

  /** `d.get("ui", {})`. */
  function UiOf(d: Document): Value
  {
    if d.ui.None? then Obj(map[]) else d.ui.value
  }

  /** `state.groups.values()` in dict order. */
  function GroupList(order: seq<int>, groups: map<int, Group>): seq<Group>
    requires forall i :: 0 <= i < |order| ==> order[i] in groups
  {
    seq(|order|, i requires 0 <= i < |order| => groups[order[i]])
  }

  lemma KeysInOrder(order: seq<int>, groups: map<int, Group>)
    requires TableValid(order, groups)
    ensures forall i :: 0 <= i < |order| ==> order[i] in groups
  {
    assert forall k :: k in groups <==> k in order;
    forall i | 0 <= i < |order| ensures order[i] in groups {
      assert order[i] in order;
    }
  }

  /** `save_project` without the file: the dataset, the labels, the groups in table order, the
      localisation parameters, both flags and the caller's `ui_state`. */
  function SaveProject(st: ProjectState, ui: map<string, Value>): Document
    reads st
    requires st.Valid()
  {
    KeysInOrder(st.groupOrder, st.groups);
    Document(st.data, st.assignment, GroupList(st.groupOrder, st.groups), st.breather,
             Some(Bool(st.applyLocalizing)), Some(Bool(st.preserveBaseSelection)), Some(Obj(ui)))
  }

  /** The group table the `for g in d["groups"]` loop of `load_project` builds: each record is
      stored over its gid, a new gid going last. */
  function LoadedGroups(docs: seq<Group>): (seq<int>, map<int, Group>)
  {
    if |docs| == 0 then ([], map[])
    else
      var prev := LoadedGroups(docs[..|docs| - 1]);
      PutGroup(prev.0, prev.1, docs[|docs| - 1])
  }

  /** The loaded table is consistent. */
  lemma {:induction false} LoadedGroupsValid(docs: seq<Group>)
    ensures var r := LoadedGroups(docs); TableValid(r.0, r.1)
  {
    if |docs| > 0 {
      var prev := LoadedGroups(docs[..|docs| - 1]);
      LoadedGroupsValid(docs[..|docs| - 1]);
      PutGroupValid(prev.0, prev.1, docs[|docs| - 1]);
    }
  }

  /** A gid is in the loaded table exactly when some record has it. */
  lemma {:induction false} LoadedGroupsKeys(docs: seq<Group>)
    ensures forall k :: k in LoadedGroups(docs).1 <==> exists i :: 0 <= i < |docs| && docs[i].gid == k
  {
    if |docs| > 0 {
      var n := |docs| - 1;
      var init := docs[..n];
      LoadedGroupsKeys(init);
      forall k | k in LoadedGroups(docs).1 && k != docs[n].gid
        ensures exists i :: 0 <= i < |docs| && docs[i].gid == k
      {
        var i :| 0 <= i < n && init[i].gid == k;
        assert docs[i] == init[i];
      }
      forall i | 0 <= i < n ensures docs[i].gid in LoadedGroups(docs).1 {
        assert init[i] == docs[i];
      }
    }
  }

  /** Each gid holds its last record: a later duplicate overrides an earlier one. */
  lemma {:induction false} LoadedGroupsLast(docs: seq<Group>, i: nat)
    requires i < |docs| && forall j :: i < j < |docs| ==> docs[j].gid != docs[i].gid
    ensures docs[i].gid in LoadedGroups(docs).1 && LoadedGroups(docs).1[docs[i].gid] == docs[i]
  {
    var n := |docs| - 1;
    if i < n {
      var init := docs[..n];
      assert init[i] == docs[i];
      assert forall j :: i < j < n ==> init[j] == docs[j];
      LoadedGroupsLast(init, i);
    }
  }

  /** The table loaded from a key list and the groups it names. */
  ghost predicate ReloadedAs(r: (seq<int>, map<int, Group>), keys: seq<int>, groups: map<int, Group>)
  {
    && r.0 == keys
    && (forall k :: k in r.1 <==> k in keys)
    && (forall k :: k in r.1 ==> k in groups && r.1[k] == groups[k])
  }

  /** Storing the group of a new key extends the loaded table by that key. */
  lemma ReloadStep(r: (seq<int>, map<int, Group>), keys: seq<int>, groups: map<int, Group>, k: int)
    requires ReloadedAs(r, keys, groups)
    requires k in groups && groups[k].gid == k && k !in keys
    ensures ReloadedAs(PutGroup(r.0, r.1, groups[k]), keys + [k], groups)
  {
    assert k !in r.1;
  }

  /** Loading the records of the first `n` keys of a table gives those keys in order, each with
      its group. */
  lemma {:induction false} ReloadPrefix(order: seq<int>, groups: map<int, Group>, n: nat)
    requires TableValid(order, groups) && n <= |order|
    ensures forall i :: 0 <= i < n ==> order[..n][i] in groups
    ensures ReloadedAs(LoadedGroups(GroupList(order[..n], groups)), order[..n], groups)
  {
    KeysInOrder(order, groups);
    assert forall i :: 0 <= i < n ==> order[..n][i] == order[i];
    if n > 0 {
      var o, prev := order[..n], order[..n - 1];
      ReloadPrefix(order, groups, n - 1);
      var docs := GroupList(o, groups);
      assert docs[..n - 1] == GroupList(prev, groups);
      var k := order[n - 1];
      assert o == prev + [k];
      assert k !in prev by {
        assert forall j :: 0 <= j < n - 1 ==> prev[j] == order[j];
      }
      assert docs[n - 1] == groups[k];
      ReloadStep(LoadedGroups(GroupList(prev, groups)), prev, groups, k);
    }
  }

  /** The group records of a saved table, loaded again, give that table back in the same order. */
  lemma SavedGroupsReload(order: seq<int>, groups: map<int, Group>)
    requires TableValid(order, groups)
    ensures forall i :: 0 <= i < |order| ==> order[i] in groups
    ensures LoadedGroups(GroupList(order, groups)) == (order, groups)
  {
    assert order[..|order|] == order;
    ReloadPrefix(order, groups, |order|);
    var r := LoadedGroups(GroupList(order, groups));
    assert ReloadedAs(r, order, groups);
    forall k ensures k in r.1 <==> k in groups {
      assert k in r.1 <==> k in order;
      assert k in groups <==> k in order;
    }
    assert r.1.Keys == groups.Keys;
    forall k | k in r.1 ensures r.1[k] == groups[k] {
    }
    assert r.1 == groups;
  }

  /** The `for g in d["groups"]` loop of `load_project` on the freshly cleared table: each record
      goes through `add_group`, and its direction is then set on the stored group. */
  method ReAddGroups(st: ProjectState, docs: seq<Group>)
    requires st.groups == map[] && st.groupOrder == [] && st.undoStack == [] && st.redoStack == []
    modifies st
    ensures (st.groupOrder, st.groups) == LoadedGroups(docs)
    ensures st.Valid()
    ensures st.data == old(st.data) && st.assignment == old(st.assignment)
    ensures st.undoStack == [] && st.redoStack == [] && st.maxHistory == old(st.maxHistory)
    ensures st.breather == old(st.breather)
    ensures st.applyLocalizing == old(st.applyLocalizing) && st.preserveBaseSelection == old(st.preserveBaseSelection)
  {
    var i := 0;
    while i < |docs|
      invariant 0 <= i <= |docs|
      invariant (st.groupOrder, st.groups) == LoadedGroups(docs[..i])
      invariant st.data == old(st.data) && st.assignment == old(st.assignment)
      invariant st.undoStack == [] && st.redoStack == [] && st.maxHistory == old(st.maxHistory)
      invariant st.breather == old(st.breather)
      invariant st.applyLocalizing == old(st.applyLocalizing) && st.preserveBaseSelection == old(st.preserveBaseSelection)
    {
      var g := docs[i];
      assert docs[..i + 1][..i] == docs[..i];
      LoadedGroupsValid(docs[..i]);
      ghost var before := (st.groupOrder, st.groups);
      var added := st.AddGroup(g.gid, g.name, g.color);
      assert added.(direction := g.direction) == g;
      st.groups := st.groups[g.gid := g];
      assert st.groups == before.1[g.gid := g];
      i := i + 1;
    }
    assert docs[..i] == docs;
    LoadedGroupsValid(docs);
  }

  /** `load_project` without the file: a fresh state for the dataset, the saved labels, the
      groups re-added in file order with their directions, the parameters and the flags, and
      the `ui` entry. The history starts empty and `max_history` is the default. */
  method LoadProject(d: Document) returns (st: ProjectState, ui: Value)
    ensures fresh(st) && st.Valid()
    ensures st.data == d.data && st.assignment == d.assignment
    ensures (st.groupOrder, st.groups) == LoadedGroups(d.groups)
    ensures st.undoStack == [] && st.redoStack == [] && st.maxHistory == DefaultMaxHistory
    ensures st.breather == d.breather
    ensures st.applyLocalizing == Flag(d.applyLocalizing)
    ensures st.preserveBaseSelection == Flag(d.preserveBaseSelection)
    ensures ui == UiOf(d)
  {
    st := new ProjectState(d.data, []);
    st.assignment := d.assignment;
    st.groups, st.groupOrder := map[], [];
    ReAddGroups(st, d.groups);
    st.breather := d.breather;
    st.applyLocalizing, st.preserveBaseSelection := Flag(d.applyLocalizing), Flag(d.preserveBaseSelection);
    ui := UiOf(d);
  }

  /** Saving and loading again gives back the dataset, the labels, the group table in its
      order, the parameters, both flags and the `ui` entry; the edit history is not saved. */
  method SaveThenLoad(st: ProjectState, uiState: map<string, Value>) returns (loaded: ProjectState, ui: Value)
    requires st.Valid()
    ensures loaded.data == st.data && loaded.assignment == st.assignment
    ensures loaded.groupOrder == st.groupOrder && loaded.groups == st.groups
    ensures loaded.breather == st.breather
    ensures loaded.applyLocalizing == st.applyLocalizing
    ensures loaded.preserveBaseSelection == st.preserveBaseSelection
    ensures ui == Obj(uiState)
    ensures loaded.undoStack == [] && loaded.redoStack == [] && loaded.maxHistory == DefaultMaxHistory
  {
    SavedGroupsReload(st.groupOrder, st.groups);
    var d := SaveProject(st, uiState);
    loaded, ui := LoadProject(d);
  }
}
