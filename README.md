# Editor access control and session state (loide)

A Dafny model of the core of the LoIDE editor component
(`src/app/editor/editor.component.ts`):

- **Access evaluator.** Owner/group/other permission masks, in the style of
  Unix file modes, decide whether the logged-in user may read, write or
  execute a document. The owner mask wins, then the group mask (when the
  user appears in `group.members`), then the `other` mask. The chosen mask is
  tested against the fixed enumerations `[2,3,6,7]` (write), `[4,5,6,7]`
  (read) and `[1,3,5,7]` (execute). Any other action is denied.
- **Editor session.** The component drives a tab registry (the navigation
  service). It holds the registered editor tabs, a per-tab `changed` flag and
  the active editor state. Opening a document registers the tab
  `EDITOR_TAB_<id>` only if it is absent, then makes it active. Saving
  happens only for a dirty active state. A save response is applied only
  while its tab still exists. The public document list is rebuilt from each
  successful fetch, keeping exactly the nodes the user may read.

Modules:

- `Wrappers` (`wrappers.dfy`): `Option`.
- `Access` (`access.dfy`): the documents, the masks and the evaluator, all pure.
- `Tabs` (`tabs.dfy`): tab-id derivation.
- `Navigation` (`navigation.dfy`): the registry. `Registry` is its abstract
  value and `Registered`, `Focused`, `Marked` and `Closed` are its
  transitions. The class `NavigationService` updates the same state in
  place, and each of its methods is tied to one transition.
- `Editor` (`editor.dfy`): the class `EditorComponent`, which keeps the
  public list and a reference to the registry. Each promise callback is a
  method that receives the service's `Response(success, returnValue)`. The
  module also holds the registry-level functions `Opened` and `SaveApplied`
  and the lemmas about them.

The navigation service's source is not part of this model. What its
`tabExist`, `inject`, `setEditorState`, `documentChanged` and
`closeEditorTab` do is an assumption, written down in `Navigation`:

- `inject` appends a clean entry, even for a tab that is already there.
  Only the component's `tabExist` guard keeps registrations unique
  (`RegisteredTwiceDuplicates`).
- `setEditorState` makes a registered tab active.
- `documentChanged` sets a registered tab's flag.
- `closeEditorTab` removes the tab and clears the active state if it was
  showing that tab.

## Model

| member | source | states |
|---|---|---|
| Access.FindIndex | src/app/editor/editor.component.ts:139 | `findIndex` by user id: -1 iff no member has the id, otherwise the first position whose member has it |
| Access.IsInGroup | src/app/editor/editor.component.ts:134-141 | false when `group` or `group.members` is absent; otherwise true iff some member's user id equals the logged user id |
| Access.RoleOf | src/app/editor/editor.component.ts:148-153 | the owner role exactly when the user owns the document; the group role only for a member |
| Access.ApplicableMask | src/app/editor/editor.component.ts:148-153 | the mask consulted is one of the document's three masks |
| Access.HasAccess | src/app/editor/editor.component.ts:143-165 | fail closed: a grant implies a recognised action and an applicable mask in 1..7 |
| Access.MaskAllows | src/app/editor/editor.component.ts:155-164 | the `switch` over the action: a grant implies a recognised action and a mask in 1..7; its meaning is stated by EnumerationsAreBitTests and MaskTable |
| Access.MaskPrecedence | src/app/editor/editor.component.ts:130-153 | owner mask when the user owns the document (`isOwner`, the owner-id comparison of 130-132), else the group mask when a member, else the other mask |
| Access.OwnerInGroupUsesOwnerMask | src/app/editor/editor.component.ts:149-152 | an owner who is also a group member is judged by the owner mask (owner 7, group 0 grants every action) |
| Access.EnumerationsAreBitTests | src/app/editor/editor.component.ts:144-146 | for every integer mask, Write/Read/Execute hold iff the mask is in 0..7 and bit 1/2/0 is set |
| Access.MaskTable | src/app/editor/editor.component.ts:144-161 | the grants of masks 0 to 7: 0 denies all, 7 grants all, 6 read+write, 5 read+execute, 3 write+execute, 4/2/1 one permission each |
| Access.FailClosed | src/app/editor/editor.component.ts:155-164 | an unrecognised action, or an applicable mask outside 0..7, is denied |
| Access.OnlySelectedMaskMatters | src/app/editor/editor.component.ts:148-161 | replacing the masks by any that agree on the selected one leaves every decision unchanged |
| Access.NoMembersNoMembership | src/app/editor/editor.component.ts:135-138 | no group, no member list or an empty member list means nobody is a member |
| Tabs.TabId | src/app/editor/editor.component.ts:16 | a tab id is the tag `EDITOR_TAB_` followed by the document id |
| Tabs.TabIdRoundTrip | src/app/editor/editor.component.ts:210 | the document id is recovered from its tab id by stripping the tag |
| Tabs.TabIdInjective | src/app/editor/editor.component.ts:210 | distinct document ids give distinct tab ids |
| Navigation.RegisteredWellFormed | src/app/editor/editor.component.ts:211-219 | injecting an absent tab keeps tabs unique, flags in step with tabs and the active state consistent |
| Navigation.RegisteredTwiceDuplicates | src/app/editor/editor.component.ts:211 | injecting a tab that exists would register it twice, so the guard is needed |
| Navigation.NoDuplicatesOccursOnce | src/app/editor/editor.component.ts:211-220 | in a registry without duplicates a registered tab occurs exactly once |
| Navigation.FocusedWellFormed | src/app/editor/editor.component.ts:221 | making a tab active keeps the registry well formed |
| Navigation.MarkedWellFormed | src/app/editor/editor.component.ts:281 | setting a tab's flag keeps the registry well formed |
| Navigation.ClosedWellFormed | src/app/editor/editor.component.ts:262-265 | closing keeps the registry well formed and leaves no tab, flag or active state for the closed tab |
| Navigation.NavigationService.TabExist | src/app/editor/editor.component.ts:211 | `tabExist`: true iff the tab occurs in the registry at least once |
| Navigation.Registered | src/app/editor/editor.component.ts:219 | `inject` as assumed: the tab is appended after the old tabs, which keep their order; one more occurrence of the injected id and no change to any other id's count; the new tab clean; every other tab keeps its flag; the active state untouched |
| Navigation.Focused | src/app/editor/editor.component.ts:221 | `setEditorState` as assumed: tabs and flags unchanged; a registered tab becomes active showing the document; an unregistered one changes nothing |
| Navigation.Marked | src/app/editor/editor.component.ts:281 | `documentChanged` as assumed: tabs unchanged, the tab's flag set, every other flag kept; the active state keeps its tab and document, mirrors the new flag when it shows this tab and is untouched otherwise; an unregistered tab changes nothing |
| Navigation.Closed | src/app/editor/editor.component.ts:263 | `closeEditorTab` as assumed: exactly the other tabs and flags remain, each flag keeping its value; an active state showing another tab is kept, none stays none, and the closed tab is never left active |
| Navigation.NavigationService.Inject | src/app/editor/editor.component.ts:219 | the registry after `inject` is `Registered` of the one before |
| Navigation.NavigationService.SetEditorState | src/app/editor/editor.component.ts:221 | the registry after `setEditorState` is `Focused` of the one before |
| Navigation.NavigationService.DocumentChanged | src/app/editor/editor.component.ts:281 | the registry after `documentChanged` is `Marked` of the one before |
| Navigation.NavigationService.CloseEditorTab | src/app/editor/editor.component.ts:263 | the registry after `closeEditorTab` is `Closed` of the one before |
| Editor.ReadableNodes | src/app/editor/editor.component.ts:172-176 | every kept node comes from the fetched list and is readable by the user; never longer than the input |
| Editor.ReadableNodesComplete | src/app/editor/editor.component.ts:172-176 | every readable fetched node is kept |
| Editor.ReadableNodesKeepOrder | src/app/editor/editor.component.ts:172-176 | the kept nodes are a subsequence of the fetched list (order preserved) |
| Editor.ReadableNodesCount | src/app/editor/editor.component.ts:172-176 | every readable fetched node is kept exactly as many times as it was fetched, every other node not at all |
| Editor.ReadableNodesSnoc | src/app/editor/editor.component.ts:172-176 | one more fetched node is appended exactly when it is readable (the `forEach`/`push` step) |
| Editor.Opened | src/app/editor/editor.component.ts:208-222 | after opening, the document's tab is registered, the tab set grows by at most that tab, a new tab occurs once and is clean, and the tab shows the document as the active state |
| Editor.OpenedSpec | src/app/editor/editor.component.ts:208-222 | opening keeps the registry well formed, adds the tab (clean) only if absent, and makes it active with this document |
| Editor.OpenIdempotent | src/app/editor/editor.component.ts:210-221 | opening the same document twice equals opening it once |
| Editor.OpenTwiceRegistersOnce | src/app/editor/editor.component.ts:210-221 | after opening a document twice its tab occurs exactly once |
| Editor.SaveApplied | src/app/editor/editor.component.ts:277-283 | tabs and flagged tabs unchanged; for a registered tab the flag is cleared and the confirmed document is active; for an absent tab nothing changes |
| Editor.SaveAppliedSpec | src/app/editor/editor.component.ts:277-283 | a response for an existing tab installs the document as active and clears that tab's flag; one for an absent tab changes nothing |
| Editor.ClosedTabIgnoresSaveResponse | src/app/editor/editor.component.ts:277-283 | a save response arriving after its tab was closed does not bring the tab back |
| Editor.IsChanged | src/app/editor/editor.component.ts:258-260 | dirty only when there is an active state |
| Editor.DirtyLifecycle | src/app/editor/editor.component.ts:258-283 | a newly opened document is clean, an edit makes it dirty, an applied save response makes it clean again |
| Editor.EditorComponent.LoadPublicDocument | src/app/editor/editor.component.ts:167-179 | after a successful fetch with a value the list is exactly the readable nodes, in order, with earlier contents gone; otherwise unchanged |
| Editor.EditorComponent.GetDocumentById | src/app/editor/editor.component.ts:198-206 | a successful fetch opens the document; a failure changes nothing |
| Editor.EditorComponent.SetEditorMenuItem | src/app/editor/editor.component.ts:208-222 | the tab is appended only if absent, the registry stays well formed, and the active state is that tab with this document |
| Editor.EditorComponent.SaveDocument | src/app/editor/editor.component.ts:267-269 | a save request (active document id and content) is issued iff there is an active state and it is dirty |
| Editor.EditorComponent.SaveDocumentResponse | src/app/editor/editor.component.ts:269-273 | a successful response is applied; a failed one leaves the registry, its flags and the active state unchanged |
| Editor.EditorComponent.SetEditorState | src/app/editor/editor.component.ts:277-283 | if the tab exists: same tabs, that tab clean, active state is that tab with the confirmed document; otherwise nothing changes |
| Editor.EditorComponent.CloseItem | src/app/editor/editor.component.ts:262-265 | the tab and its flag are gone and the registry stays well formed |
| Editor.OpenTwice | src/app/editor/editor.component.ts:208-222 | opening the same document twice through the component leaves one registration |
| Editor.CloseThenSaveResponse | src/app/editor/editor.component.ts:262-283 | closing a tab and then receiving its save response, success or failure, leaves the tab closed |

## Left out

- Angular lifecycle and subscriptions (`ngOnInit`, the `queryParamMap`, `menu` and `active` streams, `@ViewChild`, `@HostListener`). The component reads the registry's active state directly instead of through the `active` subscription. The menu copy at lines 97-100 is a plain list copy.
- Promises and async ordering. Each `.then` body is a method that receives the result. Overlapping saves and their arrival order are not modelled.
- The spinner, the ace editor, `ScriptLoaderService` and `Meteor.userId()`. The logged user id is a constructor argument, always a string. A missing login (`null`) is not modelled.
- The internals of `NavigationService` and `DocumentService`. The registry's behaviour is assumed as described above. Fetch and update results are supplied by the caller.
- Layout and resize geometry (`setBodySize`, `toggleSidebarLeft`, `onMouseMove`, `resizeLeft`, `setResizePanel`, `isSingleBarOpen`, `isBothBarOpen`). This is pixel logic driven by browser values.
- `loadPrivateDocument`, `isDocumentFolder` and `onToolbarEvent`. The first is a bare assignment of the fetch result, the second a single comparison, and the third only dispatches to `saveDocument`.
- Menu-item display fields (`icon`, `label`, `routerLink`, `queryParams`). Only the tab id is modelled.
- Masks are integers. A non-integer or missing JavaScript value in `memberAccess` is not modelled; it would match none of the enumerations and so be denied.
- Editor.EditorComponent.GetDocumentById: a successful response with no value is treated as "nothing changes". The source would throw inside the callback when it reads `document._id`, before any state is touched.
- Editor.EditorComponent.SaveDocumentResponse: a successful response with no value is treated the same way, for the same reason.
- Editor.EditorComponent.LoadPublicDocument: a fetched node without `data`, or whose document has no `memberAccess`, makes `hasAccess` throw at line 148 inside the `forEach`. The `splice` at line 171 has already run, so the source leaves only the readable nodes before that node. The model gives every node a complete document and promises the readable nodes of the whole list.
- Access.IsOwner: a document without `owner` makes line 131 throw. The model gives every document an owner id.
- Access.IsInGroup: a member entry without `user` makes the `findIndex` callback at line 139 throw instead of counting as "no membership". The model gives every member a user id.
- Access.HasAccess: a document without `memberAccess` makes line 148 throw. The model gives every document its three masks.
