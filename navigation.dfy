/**
 * The tab registry the editor component drives. Its implementation is not
 * part of this model: it is described by the operations the component calls
 * (`tabExist`, `inject`, `setEditorState`, `documentChanged`,
 * `closeEditorTab`) over a list of registered tab ids, a per-tab `changed`
 * flag and an optional active editor state.
 */
module Navigation {
  import opened Wrappers
  import opened Access

  /** The active editor state: the tab, the document it shows and its dirty flag. */
  datatype EditorState = EditorState(tabId: string, currentDocument: FileFolder, changed: bool)

  /** The abstract value of the registry. */
  datatype Registry = Registry(tabs: seq<string>, changed: map<string, bool>, active: Option<EditorState>)

  predicate NoDuplicates(s: seq<string>)
  {
    forall i, j :: 0 <= i < j < |s| ==> s[i] != s[j]
  }

  /**
   * Each tab is registered once, exactly the registered tabs carry a flag,
   * and the active state names a registered tab and mirrors its flag.
   */
  ghost predicate WellFormed(r: Registry)
  {
    && NoDuplicates(r.tabs)
    && (forall t :: t in r.changed <==> t in r.tabs)
    && (r.active.Some? ==>
          r.active.value.tabId in r.changed &&
          r.active.value.changed == r.changed[r.active.value.tabId])
  }

  /** How many times `t` is registered. */
  function Occurrences(s: seq<string>, t: string): (n: nat)
    ensures n <= |s|
    ensures n == 0 <==> t !in s
  {
    if |s| == 0 then 0
    else (if s[0] == t then 1 else 0) + Occurrences(s[1..], t)
  }

  lemma {:induction false} NoDuplicatesOccursOnce(s: seq<string>, t: string)
    requires NoDuplicates(s) && t in s
    ensures Occurrences(s, t) == 1
  {
    if s[0] == t {
      assert t !in s[1..] by {
        forall j | 0 <= j < |s[1..]| ensures s[1..][j] != t {
          assert s[0] != s[j + 1];
        }
      }
    } else {
      assert NoDuplicates(s[1..]) by {
        forall i, j | 0 <= i < j < |s[1..]| ensures s[1..][i] != s[1..][j] {
          assert s[i + 1] != s[j + 1];
        }
      }
      NoDuplicatesOccursOnce(s[1..], t);
    }
  }

  /** The list without `t`, order kept. */
  function Without(s: seq<string>, t: string): (r: seq<string>)
    ensures forall x :: x in r <==> x in s && x != t
    ensures NoDuplicates(s) ==> NoDuplicates(r)
  {
    if |s| == 0 then []
    else if s[0] == t then Without(s[1..], t)
    else
      assert NoDuplicates(s) ==> s[0] !in s[1..] by {
        if NoDuplicates(s) {
          forall j | 0 <= j < |s[1..]| ensures s[1..][j] != s[0] {
            assert s[0] != s[j + 1];
          }
        }
      }
      assert NoDuplicates(s) ==> NoDuplicates(s[1..]) by {
        if NoDuplicates(s) {
          forall i, j | 0 <= i < j < |s[1..]| ensures s[1..][i] != s[1..][j] {
            assert s[i + 1] != s[j + 1];
          }
        }
      }
      [s[0]] + Without(s[1..], t)
  }

  /** Appending one element adds one occurrence of it and none of anything else. */
  lemma {:induction false} OccurrencesSnoc(s: seq<string>, t: string, x: string)
    ensures Occurrences(s + [t], x) == Occurrences(s, x) + (if t == x then 1 else 0)
    decreases |s|
  {
    if |s| == 0 {
      assert s + [t] == [t];
    } else {
      assert (s + [t])[1..] == s[1..] + [t];
      OccurrencesSnoc(s[1..], t, x);
    }
  }

  /**
   * `inject`: a new menu entry is appended with a clean flag, whether or not
   * it is already there; the active state is untouched.
   */
  function Registered(r: Registry, tabId: string): (r': Registry)
    ensures |r'.tabs| == |r.tabs| + 1
    ensures r'.tabs[..|r.tabs|] == r.tabs && r'.tabs[|r.tabs|] == tabId
    ensures Occurrences(r'.tabs, tabId) == Occurrences(r.tabs, tabId) + 1
    ensures forall x :: x != tabId ==> Occurrences(r'.tabs, x) == Occurrences(r.tabs, x)
    ensures tabId in r'.changed && !r'.changed[tabId]
    ensures forall t :: t != tabId ==> (t in r'.changed <==> t in r.changed)
    ensures forall t :: t in r.changed && t != tabId ==> r'.changed[t] == r.changed[t]
    ensures r'.active == r.active
  {
    forall x ensures Occurrences(r.tabs + [tabId], x) == Occurrences(r.tabs, x) + (if tabId == x then 1 else 0) {
      OccurrencesSnoc(r.tabs, tabId, x);
    }
    r.(tabs := r.tabs + [tabId], changed := r.changed[tabId := false])
  }

  /** `setEditorState`: a registered tab becomes active, showing `doc`. */
  function Focused(r: Registry, tabId: string, doc: FileFolder): (r': Registry)
    ensures r'.tabs == r.tabs && r'.changed == r.changed
    ensures tabId in r.changed ==> r'.active.Some? && r'.active.value.tabId == tabId
    ensures tabId in r.changed ==> r'.active.value.currentDocument == doc
    ensures tabId !in r.changed ==> r' == r
  {
    if tabId in r.changed then r.(active := Some(EditorState(tabId, doc, r.changed[tabId])))
    else r
  }

  /** `documentChanged`: the flag of a registered tab is set; closed tabs cannot be marked. */
  function Marked(r: Registry, tabId: string, flag: bool): (r': Registry)
    ensures r'.tabs == r.tabs && r'.changed.Keys == r.changed.Keys
    ensures tabId in r.changed ==> r'.changed[tabId] == flag
    ensures forall t :: t in r.changed && t != tabId ==> r'.changed[t] == r.changed[t]
    ensures r'.active.Some? <==> r.active.Some?
    ensures r'.active.Some? ==>
      r'.active.value.tabId == r.active.value.tabId &&
      r'.active.value.currentDocument == r.active.value.currentDocument
    ensures r.active.Some? && r.active.value.tabId != tabId ==> r'.active == r.active
    ensures tabId in r.changed && r.active.Some? && r.active.value.tabId == tabId ==>
      r'.active.value.changed == flag
    ensures tabId !in r.changed ==> r' == r
  {
    if tabId in r.changed then
      r.(changed := r.changed[tabId := flag],
         active := if r.active.Some? && r.active.value.tabId == tabId
                   then Some(r.active.value.(changed := flag)) else r.active)
    else r
  }

  /** `closeEditorTab`: the tab and its flag go; if it was active, nothing is active. */
  function Closed(r: Registry, tabId: string): (r': Registry)
    ensures forall t :: t in r'.tabs <==> t in r.tabs && t != tabId
    ensures forall t :: t in r'.changed <==> t in r.changed && t != tabId
    ensures forall t :: t in r'.changed ==> r'.changed[t] == r.changed[t]
    ensures r'.active.Some? ==> r'.active.value.tabId != tabId
    ensures r.active.Some? && r.active.value.tabId != tabId ==> r'.active == r.active
    ensures r.active.None? ==> r'.active.None?
  {
    Registry(
      Without(r.tabs, tabId),
      r.changed - {tabId},
      if r.active.Some? && r.active.value.tabId == tabId then None else r.active)
  }

  /** Registering an absent tab keeps the registry well formed. */
  lemma RegisteredWellFormed(r: Registry, tabId: string)
    requires WellFormed(r) && tabId !in r.tabs
    ensures WellFormed(Registered(r, tabId))
  {
    var s := Registered(r, tabId).tabs;
    forall i, j | 0 <= i < j < |s| ensures s[i] != s[j] {
      if j == |r.tabs| {
        assert s[i] == r.tabs[i];
      }
    }
  }

  /** Registering a tab that is already there leaves it registered twice. */
  lemma RegisteredTwiceDuplicates(r: Registry, tabId: string)
    requires tabId in r.tabs
    ensures !NoDuplicates(Registered(r, tabId).tabs)
  {
    var s := Registered(r, tabId).tabs;
    var i :| 0 <= i < |r.tabs| && r.tabs[i] == tabId;
    assert s[i] == s[|r.tabs|];
  }

  lemma FocusedWellFormed(r: Registry, tabId: string, doc: FileFolder)
    requires WellFormed(r)
    ensures WellFormed(Focused(r, tabId, doc))
  {
  }

  lemma MarkedWellFormed(r: Registry, tabId: string, flag: bool)
    requires WellFormed(r)
    ensures WellFormed(Marked(r, tabId, flag))
  {
  }

  /** Closing keeps the registry well formed and removes every trace of the tab. */
  lemma ClosedWellFormed(r: Registry, tabId: string)
    requires WellFormed(r)
    ensures WellFormed(Closed(r, tabId))
    ensures tabId !in Closed(r, tabId).tabs && tabId !in Closed(r, tabId).changed
    ensures Closed(r, tabId).active.Some? ==> Closed(r, tabId).active.value.tabId != tabId
  {
  }

  /** The registry service, its state updated in place by the component's calls. */
  class NavigationService {
    var tabs: seq<string>
    var changed: map<string, bool>
    var active: Option<EditorState>

    function Model(): Registry
      reads this
    {
      Registry(tabs, changed, active)
    }

    ghost predicate Valid()
      reads this
    {
      WellFormed(Model())
    }

    constructor ()
      ensures Valid() && Model() == Registry([], map[], None)
    {
      tabs, changed, active := [], map[], None;
    }

    function TabExist(tabId: string): (b: bool)
      reads this
      ensures b <==> Occurrences(tabs, tabId) > 0
    {
      tabId in tabs
    }

    method Inject(tabId: string)
      modifies this
      ensures Model() == Registered(old(Model()), tabId)
    {
      tabs := tabs + [tabId];
      changed := changed[tabId := false];
    }

    method SetEditorState(tabId: string, doc: FileFolder)
      modifies this
      ensures Model() == Focused(old(Model()), tabId, doc)
    {
      if tabId in changed {
        active := Some(EditorState(tabId, doc, changed[tabId]));
      }
    }

    method DocumentChanged(tabId: string, flag: bool)
      modifies this
      ensures Model() == Marked(old(Model()), tabId, flag)
    {
      if tabId in changed {
        changed := changed[tabId := flag];
        if active.Some? && active.value.tabId == tabId {
          active := Some(active.value.(changed := flag));
        }
      }
    }

    method CloseEditorTab(tabId: string)
      modifies this
      ensures Model() == Closed(old(Model()), tabId)
    {
      tabs := Without(tabs, tabId);
      changed := changed - {tabId};
      if active.Some? && active.value.tabId == tabId {
        active := None;
      }
    }
  }
}
