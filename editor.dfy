/**
 * The editor component's session logic: filtering the public document list
 * by read access, opening a document in a tab, saving the active document and
 * applying the server's answer, and closing a tab. Each promise callback is a
 * method that receives the service's result.
 */
module Editor {
  import opened Wrappers
  import opened Access
  import opened Tabs
  import opened Navigation

  /**
   * A node of the document tree, reduced to `data`, the file or folder it
   * shows; the filter reads nothing else.
   */
  datatype TreeNode = TreeNode(data: FileFolder)

  /** What the document service resolves with: a success flag and an optional value. */
  datatype Response<T> = Response(success: bool, returnValue: Option<T>)

  /** The arguments `saveDocument` sends to the document service. */
  datatype SaveRequest = SaveRequest(documentId: string, content: string)

  // ----- the public document list -----

  /** The nodes whose document the user may read, in their original order. */
  function ReadableNodes(nodes: seq<TreeNode>, userId: string): (r: seq<TreeNode>)
    ensures |r| <= |nodes|
    ensures forall n :: n in r ==> n in nodes && HasAccess(n.data, userId, Read)
  {
    if |nodes| == 0 then []
    else
      (if HasAccess(nodes[0].data, userId, Read) then [nodes[0]] else [])
      + ReadableNodes(nodes[1..], userId)
  }

  /** `a` is `b` with some elements dropped and the rest in the same order. */
  predicate IsSubsequence<T(==)>(a: seq<T>, b: seq<T>)
    decreases |b|
  {
    if |a| == 0 then true
    else if |b| == 0 then false
    else if a[0] == b[0] then IsSubsequence(a[1..], b[1..])
    else IsSubsequence(a, b[1..])
  }

  /** No readable node is dropped. */
  lemma {:induction false} ReadableNodesComplete(nodes: seq<TreeNode>, userId: string)
    ensures forall n :: n in nodes && HasAccess(n.data, userId, Read) ==> n in ReadableNodes(nodes, userId)
  {
    if |nodes| > 0 {
      ReadableNodesComplete(nodes[1..], userId);
      forall n | n in nodes && HasAccess(n.data, userId, Read)
        ensures n in ReadableNodes(nodes, userId)
      {
        if n != nodes[0] {
          assert n in nodes[1..];
        }
      }
    }
  }

  /** The filtered list keeps the order of the fetched list. */
  lemma {:induction false} ReadableNodesKeepOrder(nodes: seq<TreeNode>, userId: string)
    ensures IsSubsequence(ReadableNodes(nodes, userId), nodes)
    decreases |nodes|
  {
    if |nodes| > 0 {
      var rest := ReadableNodes(nodes[1..], userId);
      ReadableNodesKeepOrder(nodes[1..], userId);
      if HasAccess(nodes[0].data, userId, Read) {
        assert ReadableNodes(nodes, userId) == [nodes[0]] + rest;
        assert ([nodes[0]] + rest)[1..] == rest;
      } else {
        assert ReadableNodes(nodes, userId) == rest;
        if |rest| > 0 {
          assert rest[0] in rest;
          assert HasAccess(rest[0].data, userId, Read);
          assert rest[0] != nodes[0];
        }
      }
    }
  }

  /**
   * Exactly the readable nodes: each readable node is kept as many times as
   * it was fetched, every other node not at all.
   */
  lemma {:induction false} ReadableNodesCount(nodes: seq<TreeNode>, userId: string)
    ensures forall n ::
              multiset(ReadableNodes(nodes, userId))[n] ==
              (if HasAccess(n.data, userId, Read) then multiset(nodes)[n] else 0)
    decreases |nodes|
  {
    if |nodes| > 0 {
      ReadableNodesCount(nodes[1..], userId);
      assert nodes == [nodes[0]] + nodes[1..];
      assert multiset(nodes) == multiset([nodes[0]]) + multiset(nodes[1..]);
    }
  }

  /** Filtering one more node appends it exactly when it is readable. */
  lemma {:induction false} ReadableNodesSnoc(nodes: seq<TreeNode>, node: TreeNode, userId: string)
    ensures ReadableNodes(nodes + [node], userId) ==
      ReadableNodes(nodes, userId) + (if HasAccess(node.data, userId, Read) then [node] else [])
    decreases |nodes|
  {
    if |nodes| == 0 {
      assert nodes + [node] == [node];
    } else {
      assert (nodes + [node])[1..] == nodes[1..] + [node];
      ReadableNodesSnoc(nodes[1..], node, userId);
    }
  }

  // ----- the tab registry as the component drives it -----

  /** `setEditorMenuItem`: register the document's tab if it is absent, then make it active. */
  function Opened(r: Registry, doc: FileFolder): (r': Registry)
    ensures TabId(doc.id) in r'.tabs
    ensures forall t :: t in r'.tabs <==> t in r.tabs || t == TabId(doc.id)
    ensures Occurrences(r'.tabs, TabId(doc.id)) == if TabId(doc.id) in r.tabs then Occurrences(r.tabs, TabId(doc.id)) else 1
    ensures TabId(doc.id) !in r.tabs ==> TabId(doc.id) in r'.changed && !r'.changed[TabId(doc.id)]
    ensures TabId(doc.id) in r'.changed ==>
      r'.active.Some? && r'.active.value.tabId == TabId(doc.id) && r'.active.value.currentDocument == doc
  {
    var tabId := TabId(doc.id);
    Focused(if tabId in r.tabs then r else Registered(r, tabId), tabId, doc)
  }

  /**
   * Opening keeps the registry well formed, adds the tab only when it is not
   * there yet (a new tab is clean), and makes it the active state.
   */
  lemma OpenedSpec(r: Registry, doc: FileFolder)
    requires WellFormed(r)
    ensures WellFormed(Opened(r, doc))
    ensures Opened(r, doc).tabs ==
      if TabId(doc.id) in r.tabs then r.tabs else r.tabs + [TabId(doc.id)]
    ensures Opened(r, doc).changed ==
      if TabId(doc.id) in r.tabs then r.changed else r.changed[TabId(doc.id) := false]
    ensures Opened(r, doc).active ==
      Some(EditorState(TabId(doc.id), doc, Opened(r, doc).changed[TabId(doc.id)]))
  {
    var tabId := TabId(doc.id);
    if tabId !in r.tabs {
      RegisteredWellFormed(r, tabId);
    }
  }

  /** Opening the same document twice is the same as opening it once. */
  lemma OpenIdempotent(r: Registry, doc: FileFolder)
    requires WellFormed(r)
    ensures Opened(Opened(r, doc), doc) == Opened(r, doc)
  {
    OpenedSpec(r, doc);
    OpenedSpec(Opened(r, doc), doc);
  }

  /** After opening a document twice its tab is registered exactly once. */
  lemma OpenTwiceRegistersOnce(r: Registry, doc: FileFolder)
    requires WellFormed(r)
    ensures Occurrences(Opened(Opened(r, doc), doc).tabs, TabId(doc.id)) == 1
  {
    OpenIdempotent(r, doc);
    OpenedSpec(r, doc);
    NoDuplicatesOccursOnce(Opened(r, doc).tabs, TabId(doc.id));
  }

  /**
   * `setEditorState`: the server-confirmed document is installed and its tab
   * marked clean, but only while that tab is still registered.
   */
  function SaveApplied(r: Registry, doc: FileFolder): (r': Registry)
    ensures r'.tabs == r.tabs && r'.changed.Keys == r.changed.Keys
    ensures TabId(doc.id) in r.tabs && TabId(doc.id) in r.changed ==>
      !r'.changed[TabId(doc.id)] && r'.active.Some? && r'.active.value.currentDocument == doc
    ensures TabId(doc.id) !in r.tabs ==> r' == r
  {
    var tabId := TabId(doc.id);
    if tabId in r.tabs then Marked(Focused(r, tabId, doc), tabId, false) else r
  }

  lemma SaveAppliedSpec(r: Registry, doc: FileFolder)
    requires WellFormed(r)
    ensures WellFormed(SaveApplied(r, doc))
    ensures TabId(doc.id) in r.tabs ==>
      && SaveApplied(r, doc).tabs == r.tabs
      && SaveApplied(r, doc).changed == r.changed[TabId(doc.id) := false]
      && SaveApplied(r, doc).active == Some(EditorState(TabId(doc.id), doc, false))
    ensures TabId(doc.id) !in r.tabs ==> SaveApplied(r, doc) == r
  {
    var tabId := TabId(doc.id);
    if tabId in r.tabs {
      FocusedWellFormed(r, tabId, doc);
      MarkedWellFormed(Focused(r, tabId, doc), tabId, false);
    }
  }

  /** A save response that arrives after its tab was closed changes nothing. */
  lemma ClosedTabIgnoresSaveResponse(r: Registry, doc: FileFolder)
    ensures SaveApplied(Closed(r, TabId(doc.id)), doc) == Closed(r, TabId(doc.id))
    ensures TabId(doc.id) !in SaveApplied(Closed(r, TabId(doc.id)), doc).tabs
  {
  }

  /** True iff there is an active state and it is dirty. */
  function IsChanged(state: Option<EditorState>): (b: bool)
    ensures b ==> state.Some?
  {
    state.Some? && state.value.changed
  }

  /**
   * The dirty flag over one document's life: clean when first opened, dirty
   * after an edit, clean again once a save response for it is applied.
   */
  lemma DirtyLifecycle(r: Registry, doc: FileFolder, confirmed: FileFolder)
    requires WellFormed(r) && TabId(doc.id) !in r.tabs && confirmed.id == doc.id
    ensures !IsChanged(Opened(r, doc).active)
    ensures IsChanged(Marked(Opened(r, doc), TabId(doc.id), true).active)
    ensures !IsChanged(SaveApplied(Marked(Opened(r, doc), TabId(doc.id), true), confirmed).active)
  {
    var tabId := TabId(doc.id);
    OpenedSpec(r, doc);
    var edited := Marked(Opened(r, doc), tabId, true);
    MarkedWellFormed(Opened(r, doc), tabId, true);
    SaveAppliedSpec(edited, confirmed);
  }

  // ----- the component -----

  class EditorComponent {
    const nav: NavigationService
    const loggedUserId: string
    var publicDocuments: seq<TreeNode>

    constructor (nav: NavigationService, loggedUserId: string)
      ensures this.nav == nav && this.loggedUserId == loggedUserId
      ensures publicDocuments == []
    {
      this.nav := nav;
      this.loggedUserId := loggedUserId;
      publicDocuments := [];
    }

    /**
     * The answer to `fetchPublicDocuments`: on success with a value, the list
     * is emptied and refilled with the readable nodes; otherwise it is kept.
     */
    method LoadPublicDocument(result: Response<seq<TreeNode>>)
      modifies this`publicDocuments
      ensures result.success && result.returnValue.Some? ==>
        publicDocuments == ReadableNodes(result.returnValue.value, loggedUserId)
      ensures !(result.success && result.returnValue.Some?) ==>
        publicDocuments == old(publicDocuments)
    {
      if result.success && result.returnValue.Some? {
        var returnValue := result.returnValue.value;
        publicDocuments := [];
        for i := 0 to |returnValue|
          invariant publicDocuments == ReadableNodes(returnValue[..i], loggedUserId)
        {
          ReadableNodesSnoc(returnValue[..i], returnValue[i], loggedUserId);
          assert returnValue[..i + 1] == returnValue[..i] + [returnValue[i]];
          if HasAccess(returnValue[i].data, loggedUserId, Read) {
            publicDocuments := publicDocuments + [returnValue[i]];
          }
        }
        assert returnValue[..|returnValue|] == returnValue;
      }
    }

    /** The answer to `getFileFolder`: a fetched document is opened, a failure changes nothing. */
    method GetDocumentById(result: Response<FileFolder>)
      requires nav.Valid()
      modifies nav
      ensures nav.Valid()
      ensures nav.Model() ==
        if result.success && result.returnValue.Some?
        then Opened(old(nav.Model()), result.returnValue.value)
        else old(nav.Model())
    {
      if result.success && result.returnValue.Some? {
        SetEditorMenuItem(result.returnValue.value);
      }
    }

    /** Open a document: its tab is injected only if absent, then made active. */
    method SetEditorMenuItem(doc: FileFolder)
      requires nav.Valid()
      modifies nav
      ensures nav.Valid()
      ensures nav.Model() == Opened(old(nav.Model()), doc)
      ensures nav.tabs ==
        if TabId(doc.id) in old(nav.tabs) then old(nav.tabs) else old(nav.tabs) + [TabId(doc.id)]
      ensures TabId(doc.id) in nav.changed
      ensures nav.active == Some(EditorState(TabId(doc.id), doc, nav.changed[TabId(doc.id)]))
    {
      var tabId := TabId(doc.id);
      if !nav.TabExist(tabId) {
        nav.Inject(tabId);
      }
      nav.SetEditorState(tabId, doc);
      OpenedSpec(old(nav.Model()), doc);
    }

    /**
     * Start a save: a request for the active document's id and content is
     * issued exactly when there is an active state and it is dirty.
     */
    method SaveDocument() returns (request: Option<SaveRequest>)
      ensures request.Some? <==> nav.active.Some? && nav.active.value.changed
      ensures request.Some? ==>
        request.value == SaveRequest(nav.active.value.currentDocument.id,
                                     nav.active.value.currentDocument.content)
    {
      if IsChanged(nav.active) {
        var doc := nav.active.value.currentDocument;
        request := Some(SaveRequest(doc.id, doc.content));
      } else {
        request := None;
      }
    }

    /** The answer to `updateDocument`: applied on success, ignored on failure. */
    method SaveDocumentResponse(result: Response<FileFolder>)
      requires nav.Valid()
      modifies nav
      ensures nav.Valid()
      ensures nav.Model() ==
        if result.success && result.returnValue.Some?
        then SaveApplied(old(nav.Model()), result.returnValue.value)
        else old(nav.Model())
    {
      if result.success && result.returnValue.Some? {
        SetEditorState(result.returnValue.value);
      }
    }

    /** Install a server-confirmed document and clear its flag, if its tab still exists. */
    method SetEditorState(doc: FileFolder)
      requires nav.Valid()
      modifies nav
      ensures nav.Valid()
      ensures nav.Model() == SaveApplied(old(nav.Model()), doc)
      ensures TabId(doc.id) in old(nav.tabs) ==>
        && nav.tabs == old(nav.tabs)
        && nav.changed == old(nav.changed)[TabId(doc.id) := false]
        && nav.active == Some(EditorState(TabId(doc.id), doc, false))
      ensures TabId(doc.id) !in old(nav.tabs) ==> nav.Model() == old(nav.Model())
    {
      var tabId := TabId(doc.id);
      if nav.TabExist(tabId) {
        nav.SetEditorState(tabId, doc);
        nav.DocumentChanged(tabId, false);
      }
      SaveAppliedSpec(old(nav.Model()), doc);
    }

    /** Close a tab through the registry. */
    method CloseItem(tabId: string)
      requires nav.Valid()
      modifies nav
      ensures nav.Valid()
      ensures nav.Model() == Closed(old(nav.Model()), tabId)
      ensures tabId !in nav.tabs && tabId !in nav.changed
    {
      nav.CloseEditorTab(tabId);
      ClosedWellFormed(old(nav.Model()), tabId);
    }
  }

  /** Opening the same document twice through the component leaves one registration. */
  method OpenTwice(editor: EditorComponent, doc: FileFolder)
    requires editor.nav.Valid()
    modifies editor.nav
    ensures editor.nav.Valid()
    ensures Occurrences(editor.nav.tabs, TabId(doc.id)) == 1
  {
    editor.SetEditorMenuItem(doc);
    editor.SetEditorMenuItem(doc);
    NoDuplicatesOccursOnce(editor.nav.tabs, TabId(doc.id));
  }

  /** Closing a tab and then receiving its save response does not bring the tab back. */
  method CloseThenSaveResponse(editor: EditorComponent, doc: FileFolder, result: Response<FileFolder>)
    requires editor.nav.Valid()
    requires result.returnValue.Some? ==> result.returnValue.value.id == doc.id
    modifies editor.nav
    ensures editor.nav.Valid()
    ensures TabId(doc.id) !in editor.nav.tabs && TabId(doc.id) !in editor.nav.changed
    ensures editor.nav.Model() == Closed(old(editor.nav.Model()), TabId(doc.id))
  {
    editor.CloseItem(TabId(doc.id));
    editor.SaveDocumentResponse(result);
  }
}
