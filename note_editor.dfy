/**
 * The note editor (components/NoteEditor.tsx): which tab the canvas shows,
 * the copy-on-write edits of a note that it hands to `onUpdate`, and the
 * local name-editing state of its header and tab bar. An edit that calls
 * `onUpdate` is modelled as `Some(updated note)`, one that does not as `None`.
 * `now` is the ISO timestamp and `newTabId` the `Date.now()`-based id the
 * source computes at the time of the edit.
 */
module NoteEditor {
  import opened Types
  import Strings

  /** The height a new tab's canvas starts with. */
  const NEW_TAB_HEIGHT: real := 2000.0

  predicate UniqueTabIds(tabs: seq<Tab>) {
    forall i, j :: 0 <= i < j < |tabs| ==> tabs[i].id != tabs[j].id
  }

  /** `tabs.findIndex(t => t.id === id)`, as an option. */
  function FindTab(tabs: seq<Tab>, id: string): (r: Option<nat>)
    ensures r.Some? ==>
      && r.value < |tabs| && tabs[r.value].id == id
      && forall k :: 0 <= k < r.value ==> tabs[k].id != id
    ensures r.None? ==> forall k :: 0 <= k < |tabs| ==> tabs[k].id != id
  {
    if tabs == [] then None
    else if tabs[0].id == id then Some(0)
    else match FindTab(tabs[1..], id)
      case None => None
      case Some(k) => Some(k + 1)
  }

  /** `activeTab` (NoteEditor.tsx:25-27): the first tab whose id is the note's
      `activeTabId`, else the first tab; no tab at all for a note without tabs. */
  function ActiveTabIndex(note: NoteFile): (r: Option<nat>)
    ensures r.None? <==> note.tabs == []
    ensures r.Some? ==> r.value < |note.tabs|
    ensures r.Some? && (exists k :: 0 <= k < |note.tabs| && note.tabs[k].id == note.activeTabId) ==>
      && note.tabs[r.value].id == note.activeTabId
      && forall k :: 0 <= k < r.value ==> note.tabs[k].id != note.activeTabId
    ensures r.Some? && !(exists k :: 0 <= k < |note.tabs| && note.tabs[k].id == note.activeTabId) ==>
      r.value == 0
  {
    match FindTab(note.tabs, note.activeTabId)
    case Some(i) => Some(i)
    case None => if note.tabs == [] then None else Some(0)
  }

  function ActiveTab(note: NoteFile): Option<Tab> {
    match ActiveTabIndex(note)
    case Some(i) => Some(note.tabs[i])
    case None => None
  }

  /** `handleTabClick` (NoteEditor.tsx:41-45): clicking the active tab does
      nothing; another tab id becomes the active one, and only it and the
      timestamp change. */
  function TabClick(note: NoteFile, tabId: string, now: string): (r: Option<NoteFile>)
    ensures r.None? <==> tabId == note.activeTabId
    ensures r.Some? ==>
      && r.value.activeTabId == tabId && r.value.updatedAt == now
      && r.value.(activeTabId := note.activeTabId, updatedAt := note.updatedAt) == note
  {
    if tabId != note.activeTabId then Some(note.(activeTabId := tabId, updatedAt := now)) else None
  }

  /** Clicking a tab of the note makes it the tab the canvas shows. */
  lemma TabClickShowsTab(note: NoteFile, k: nat, now: string)
    requires k < |note.tabs| && UniqueTabIds(note.tabs)
    requires note.tabs[k].id != note.activeTabId
    ensures var r := TabClick(note, note.tabs[k].id, now);
      r.Some? && ActiveTab(r.value) == Some(note.tabs[k])
  {
    var r := TabClick(note, note.tabs[k].id, now).value;
    assert r.tabs == note.tabs;
  }

  /** `Tab ${n}` */
  function TabName(n: nat): string {
    "Tab " + Strings.Decimal(n)
  }

  /** `handleAddTab` (NoteEditor.tsx:47-62): a new empty tab named after the new
      tab count, 2000 high, is appended and made active. */
  function AddTab(note: NoteFile, newTabId: string, now: string): (r: NoteFile)
    ensures |r.tabs| == |note.tabs| + 1 && r.tabs[..|note.tabs|] == note.tabs
    ensures r.tabs[|note.tabs|] == Tab(newTabId, TabName(|note.tabs| + 1), [], NEW_TAB_HEIGHT)
    ensures r.activeTabId == newTabId && r.updatedAt == now
    ensures r.id == note.id && r.name == note.name && r.createdAt == note.createdAt
  {
    var newTab := Tab(newTabId, TabName(|note.tabs| + 1), [], NEW_TAB_HEIGHT);
    note.(tabs := note.tabs + [newTab], activeTabId := newTabId, updatedAt := now)
  }

  /** With a fresh id, the added tab is the one the canvas then shows, and ids
      stay unique. */
  lemma AddTabShowsNewTab(note: NoteFile, newTabId: string, now: string)
    requires UniqueTabIds(note.tabs)
    requires forall t :: t in note.tabs ==> t.id != newTabId
    ensures var r := AddTab(note, newTabId, now);
      && ActiveTab(r) == Some(Tab(newTabId, TabName(|note.tabs| + 1), [], NEW_TAB_HEIGHT))
      && UniqueTabIds(r.tabs)
  {
    var r := AddTab(note, newTabId, now);
    forall k | 0 <= k < |note.tabs| ensures r.tabs[k].id != newTabId {
      assert r.tabs[k] == note.tabs[k];
      assert note.tabs[k] in note.tabs;
    }
  }

  /** Every tab whose id is `id` takes the new strokes; every other tab is kept. */
  function ReplaceStrokes(tabs: seq<Tab>, id: string, strokes: seq<Stroke>): (r: seq<Tab>)
    ensures |r| == |tabs|
    ensures forall k :: 0 <= k < |tabs| ==>
      r[k] == if tabs[k].id == id then tabs[k].(strokes := strokes) else tabs[k]
  {
    seq(|tabs|, k requires 0 <= k < |tabs| => if tabs[k].id == id then tabs[k].(strokes := strokes) else tabs[k])
  }

  /** `handleStrokesChange` (NoteEditor.tsx:64-69): the tabs sharing the active
      tab's id take the new strokes, and the timestamp is renewed. A note
      without tabs maps no tab, so only its timestamp changes. */
  function StrokesChange(note: NoteFile, strokes: seq<Stroke>, now: string): (r: NoteFile)
    ensures note.tabs == [] ==> r.tabs == []
    ensures note.tabs != [] ==>
      r.tabs == ReplaceStrokes(note.tabs, note.tabs[ActiveTabIndex(note).value].id, strokes)
    ensures r.(tabs := note.tabs, updatedAt := note.updatedAt) == note
    ensures r.updatedAt == now
  {
    match ActiveTab(note)
    case None => note.(updatedAt := now)
    case Some(active) => note.(tabs := ReplaceStrokes(note.tabs, active.id, strokes), updatedAt := now)
  }

  /** With unique tab ids, a strokes change touches the active tab's strokes
      and nothing else, and the canvas then shows exactly the new strokes. */
  lemma StrokesChangeOnlyActiveTab(note: NoteFile, strokes: seq<Stroke>, now: string)
    requires note.tabs != [] && UniqueTabIds(note.tabs)
    ensures var i := ActiveTabIndex(note).value;
      var r := StrokesChange(note, strokes, now);
      && |r.tabs| == |note.tabs|
      && r.tabs[i] == note.tabs[i].(strokes := strokes)
      && (forall k :: 0 <= k < |note.tabs| && k != i ==> r.tabs[k] == note.tabs[k])
      && ActiveTab(r) == Some(note.tabs[i].(strokes := strokes))
  {
    var i := ActiveTabIndex(note).value;
    var r := StrokesChange(note, strokes, now);
    ActiveTabSeesStrokes(note, strokes, now);
  }

  /** Whatever the ids, the tab the canvas shows after a strokes change holds
      exactly the strokes it emitted: the change reaches the canvas. */
  lemma ActiveTabSeesStrokes(note: NoteFile, strokes: seq<Stroke>, now: string)
    requires note.tabs != []
    ensures var r := StrokesChange(note, strokes, now);
      && ActiveTabIndex(r) == ActiveTabIndex(note)
      && ActiveTab(r) == Some(note.tabs[ActiveTabIndex(note).value].(strokes := strokes))
  {
    var r := StrokesChange(note, strokes, now);
    var i := ActiveTabIndex(note).value;
    assert forall k :: 0 <= k < |note.tabs| ==> r.tabs[k].id == note.tabs[k].id;
    assert r.activeTabId == note.activeTabId;
    if exists k :: 0 <= k < |note.tabs| && note.tabs[k].id == note.activeTabId {
      assert note.tabs[i].id == note.activeTabId;
      assert r.tabs[i].id == r.activeTabId;
    }
  }

  /** The strokes the undo button leaves (NoteEditor.tsx:75): all deselected,
      the last one dropped. */
  function UndoStrokes(strokes: seq<Stroke>): (r: seq<Stroke>)
    requires strokes != []
    ensures |r| == |strokes| - 1
    ensures forall i :: 0 <= i < |r| ==> !IsSelected(r[i]) && r[i] == strokes[i].(selected := Some(false))
  {
    Deselect(strokes)[..|strokes| - 1]
  }

  /** `handleUndo` (NoteEditor.tsx:71-77): nothing for an empty active tab,
      otherwise a strokes change to the undone list. For a note without tabs
      the source reads `strokes` of an undefined tab and throws; no update is
      made then either. */
  function Undo(note: NoteFile, now: string): (r: Option<NoteFile>)
    ensures note.tabs == [] || ActiveTab(note).value.strokes == [] ==> r.None?
    ensures note.tabs != [] && ActiveTab(note).value.strokes != [] ==>
      r == Some(StrokesChange(note, UndoStrokes(ActiveTab(note).value.strokes), now))
  {
    match ActiveTab(note)
    case None => None
    case Some(active) => if active.strokes == [] then None else Some(StrokesChange(note, UndoStrokes(active.strokes), now))
  }

  /** Undo leaves the shown tab with one stroke fewer, every one unselected and
      otherwise equal to the strokes before it. */
  lemma UndoDropsLastStroke(note: NoteFile, now: string)
    requires note.tabs != [] && ActiveTab(note).value.strokes != []
    ensures var before := ActiveTab(note).value.strokes;
      var r := Undo(note, now);
      && r.Some? && ActiveTab(r.value).Some?
      && var after := ActiveTab(r.value).value.strokes;
      && |after| == |before| - 1
      && forall i :: 0 <= i < |after| ==> !IsSelected(after[i]) && after[i] == WithSelected(before[i], false)
  {
    ActiveTabSeesStrokes(note, UndoStrokes(ActiveTab(note).value.strokes), now);
  }

  /** Every tab whose id is `id` takes the new name; every other tab is kept. */
  function RenameTab(tabs: seq<Tab>, id: string, name: string): (r: seq<Tab>)
    ensures |r| == |tabs|
    ensures forall k :: 0 <= k < |tabs| ==>
      r[k] == if tabs[k].id == id then tabs[k].(name := name) else tabs[k]
  {
    seq(|tabs|, k requires 0 <= k < |tabs| => if tabs[k].id == id then tabs[k].(name := name) else tabs[k])
  }

  /** The update `handleSaveTabName` hands over (NoteEditor.tsx:89-98): only
      when a tab is being edited (a non-empty id) and the typed name trims to
      something; then the edited tab gets the trimmed name. */
  function SavedTabName(note: NoteFile, editingTabId: Option<string>, editingTabName: string, now: string): (r: Option<NoteFile>)
    ensures r.Some? <==> editingTabId.Some? && editingTabId.value != "" && Strings.Trim(editingTabName) != ""
    ensures r.Some? ==>
      && r.value.tabs == RenameTab(note.tabs, editingTabId.value, Strings.Trim(editingTabName))
      && r.value.(tabs := note.tabs, updatedAt := note.updatedAt) == note
      && r.value.updatedAt == now
  {
    if editingTabId.Some? && editingTabId.value != "" then
      var trimmedName := Strings.Trim(editingTabName);
      if trimmedName != "" then
        Some(note.(tabs := RenameTab(note.tabs, editingTabId.value, trimmedName), updatedAt := now))
      else None
    else None
  }

  /** With unique ids, saving renames exactly the edited tab, to a name without
      surrounding white space. */
  lemma SavedTabNameOnlyThatTab(note: NoteFile, k: nat, editingTabName: string, now: string)
    requires k < |note.tabs| && UniqueTabIds(note.tabs) && note.tabs[k].id != ""
    requires Strings.Trim(editingTabName) != ""
    ensures var r := SavedTabName(note, Some(note.tabs[k].id), editingTabName, now);
      && r.Some? && |r.value.tabs| == |note.tabs|
      && r.value.tabs[k] == note.tabs[k].(name := Strings.Trim(editingTabName))
      && (forall j :: 0 <= j < |note.tabs| && j != k ==> r.value.tabs[j] == note.tabs[j])
      && !Strings.IsWhiteSpace(r.value.tabs[k].name[0])
  {
  }

  /** The update `handleNoteNameBlur` hands over (NoteEditor.tsx:33-36): only
      when the typed name trims to something other than the current name. */
  function RenamedNote(note: NoteFile, typed: string, now: string): (r: Option<NoteFile>)
    ensures r.Some? <==> Strings.Trim(typed) != "" && Strings.Trim(typed) != note.name
    ensures r.Some? ==>
      && r.value.name == Strings.Trim(typed) && r.value.updatedAt == now
      && r.value.(name := note.name, updatedAt := note.updatedAt) == note
  {
    var trimmed := Strings.Trim(typed);
    if trimmed != "" && trimmed != note.name then Some(note.(name := trimmed, updatedAt := now)) else None
  }

  /** Blurring twice with the same text renames at most once: the renamed note
      already carries the trimmed name. */
  lemma RenameNoteSettles(note: NoteFile, typed: string, now: string, later: string)
    requires RenamedNote(note, typed, now).Some?
    ensures RenamedNote(RenamedNote(note, typed, now).value, typed, later).None?
  {
  }

  /** The header's and tab bar's local editing state (NoteEditor.tsx:15-17). */
  class EditorState {
    var noteName: string
    var editingTabId: Option<string>
    var editingTabName: string

    constructor (note: NoteFile)
      ensures noteName == note.name && editingTabId == None && editingTabName == ""
    {
      noteName := note.name;
      editingTabId := None;
      editingTabName := "";
    }

    /** `handleNoteNameChange` (NoteEditor.tsx:29-31) */
    method NoteNameChange(value: string)
      modifies this
      ensures noteName == value
      ensures editingTabId == old(editingTabId) && editingTabName == old(editingTabName)
    {
      noteName := value;
    }

    /** `handleNoteNameBlur` (NoteEditor.tsx:33-39): hand over the renamed note,
        or else put the note's own name back into the field. */
    method NoteNameBlur(note: NoteFile, now: string) returns (update: Option<NoteFile>)
      modifies this
      ensures update == RenamedNote(note, old(noteName), now)
      ensures noteName == if update.Some? then old(noteName) else note.name
      ensures editingTabId == old(editingTabId) && editingTabName == old(editingTabName)
    {
      update := RenamedNote(note, noteName, now);
      if update.None? {
        noteName := note.name;
      }
    }

    /** `handleStartTabRename` (NoteEditor.tsx:79-83), without the focus timer. */
    method StartTabRename(tab: Tab)
      modifies this
      ensures editingTabId == Some(tab.id) && editingTabName == tab.name
      ensures noteName == old(noteName)
    {
      editingTabId := Some(tab.id);
      editingTabName := tab.name;
    }

    /** `handleTabNameChange` (NoteEditor.tsx:85-87) */
    method TabNameChange(value: string)
      modifies this
      ensures editingTabName == value
      ensures noteName == old(noteName) && editingTabId == old(editingTabId)
    {
      editingTabName := value;
    }

    /** `handleSaveTabName` (NoteEditor.tsx:89-100): hand over the renamed tab
        when there is one, and leave editing mode in every case. */
    method SaveTabName(note: NoteFile, now: string) returns (update: Option<NoteFile>)
      modifies this
      ensures update == SavedTabName(note, old(editingTabId), old(editingTabName), now)
      ensures editingTabId == None
      ensures noteName == old(noteName) && editingTabName == old(editingTabName)
    {
      update := SavedTabName(note, editingTabId, editingTabName, now);
      editingTabId := None;
    }
  }
}
