/** Editor tab identifiers: the tag `EDITOR_TAB_` followed by the document id. */
module Tabs {
  import opened Wrappers

  const EditorTabTag: string := "EDITOR_TAB_"

  function TabId(documentId: string): (tabId: string)
    ensures |tabId| == |EditorTabTag| + |documentId|
    ensures tabId[..|EditorTabTag|] == EditorTabTag
    ensures tabId[|EditorTabTag|..] == documentId
  {
    EditorTabTag + documentId
  }

  /** The document id a tab id was derived from, if it carries the editor tag. */
  function DocumentIdOf(tabId: string): (documentId: Option<string>)
    ensures documentId.Some? <==> EditorTabTag <= tabId
  {
    if EditorTabTag <= tabId then Some(tabId[|EditorTabTag|..]) else None
  }

  lemma TabIdRoundTrip(documentId: string)
    ensures DocumentIdOf(TabId(documentId)) == Some(documentId)
  {
  }

  /** Distinct documents never share a tab. */
  lemma TabIdInjective(a: string, b: string)
    ensures TabId(a) == TabId(b) ==> a == b
  {
  }
}
