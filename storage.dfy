/**
 * Loading and creating notes (services/storageService.ts). The stored JSON is
 * modelled in its own, looser form: a tab may lack its height and a stroke may
 * still be a bare array of points, the format of earlier versions. Loading
 * migrates every tab of every note; a missing store falls back to a welcome
 * note. `now` stands for the `Date.now()` and ISO-date values the source reads.
 */
module Storage {
  import opened Types
  import Strings
  import NoteEditor

  const INITIAL_CANVAS_HEIGHT: real := 2000.0

  /** A stored stroke: a bare point array (legacy format) or a stroke record. */
  datatype StoredStroke = Legacy(points: seq<Point>) | Rec(stroke: Stroke)

  datatype StoredTab = StoredTab(id: string, name: string, strokes: seq<StoredStroke>, height: Option<real>)

  datatype StoredNote = StoredNote(id: string, name: string, tabs: seq<StoredTab>, activeTabId: string,
                                   createdAt: string, updatedAt: string)

  datatype StoredFileSystem = StoredFileSystem(notes: map<string, StoredNote>)

  /** `migrated-${tab.id}-${index}-${Date.now()}` */
  function MigratedId(tabId: string, index: nat, now: string): string {
    "migrated-" + tabId + "-" + Strings.Decimal(index) + "-" + now
  }

  /** Within one tab, migrated strokes get pairwise distinct ids, even when the
      clock reads differently for the two of them. */
  lemma MigratedIdsDistinct(tabId: string, i: nat, j: nat, nowI: string, nowJ: string)
    requires i != j
    ensures MigratedId(tabId, i, nowI) != MigratedId(tabId, j, nowJ)
  {
    var prefix := "migrated-" + tabId + "-";
    var di, dj := Strings.Decimal(i), Strings.Decimal(j);
    var a, b := di + "-" + nowI, dj + "-" + nowJ;
    assert MigratedId(tabId, i, nowI) == prefix + a;
    assert MigratedId(tabId, j, nowJ) == prefix + b;
    // the two suffixes differ: at the first '-' or in the digits before it
    if |di| < |dj| {
      assert a[|di|] == '-' && b[|di|] == dj[|di|] && Strings.IsDigit(dj[|di|]);
    } else if |dj| < |di| {
      assert b[|dj|] == '-' && a[|dj|] == di[|dj|] && Strings.IsDigit(di[|dj|]);
    } else {
      Strings.DecimalInjective(i, j);
      assert a[..|di|] == di != dj == b[..|dj|];
    }
    assert a != b;
    assert (prefix + a)[|prefix|..] == a && (prefix + b)[|prefix|..] == b;
  }

  /** The record a bare point array becomes: white, 3 wide, not selected. */
  function MigratedStroke(tabId: string, index: nat, points: seq<Point>, now: string): Stroke {
    Stroke(MigratedId(tabId, index, now), points, "#FFFFFF", 3.0, Some(false))
  }

  /** The test of storageService.ts:20: non-empty, and the first element is a bare point array. */
  predicate NeedsMigration(strokes: seq<StoredStroke>) {
    |strokes| > 0 && strokes[0].Legacy?
  }

  /** The stroke list after storageService.ts:20-28: a list starting with a bare
      point array has each bare array wrapped into a record, one for one and in
      order; any other list is left as it is. */
  function MigrateStrokes(tabId: string, strokes: seq<StoredStroke>, now: string): (r: seq<StoredStroke>)
    ensures |r| == |strokes|
    ensures !NeedsMigration(strokes) ==> r == strokes
    ensures NeedsMigration(strokes) ==> forall i :: 0 <= i < |strokes| ==>
      && r[i].Rec?
      && (strokes[i].Legacy? ==>
           && r[i].stroke.id == MigratedId(tabId, i, now)
           && r[i].stroke.points == strokes[i].points
           && r[i].stroke.color == "#FFFFFF" && r[i].stroke.width == 3.0
           && r[i].stroke.selected == Some(false))
      && (strokes[i].Rec? ==> r[i] == strokes[i])
  {
    if NeedsMigration(strokes) then
      seq(|strokes|, i requires 0 <= i < |strokes| =>
        match strokes[i]
        case Legacy(points) => Rec(MigratedStroke(tabId, i, points, now))
        case Rec(s) => Rec(s))
    else strokes
  }

  /** One tab after the loop body of storageService.ts:14-29. */
  function MigrateTab(tab: StoredTab, now: string): (r: StoredTab)
    ensures r.id == tab.id && r.name == tab.name
    ensures r.height.Some?
    ensures tab.height.Some? ==> r.height == tab.height
    ensures tab.height.None? ==> r.height == Some(INITIAL_CANVAS_HEIGHT)
    ensures r.strokes == MigrateStrokes(tab.id, tab.strokes, now)
  {
    var withHeight := if tab.height.None? then tab.(height := Some(INITIAL_CANVAS_HEIGHT)) else tab;
    if NeedsMigration(withHeight.strokes) then
      withHeight.(strokes := MigrateStrokes(tab.id, withHeight.strokes, now))
    else withHeight
  }

  /** Two migrated strokes of one tab never share an id. */
  lemma MigratedStrokeIdsDistinct(tab: StoredTab, now: string, i: nat, j: nat)
    requires i < j < |tab.strokes| && NeedsMigration(tab.strokes)
    requires tab.strokes[i].Legacy? && tab.strokes[j].Legacy?
    ensures var r := MigrateTab(tab, now).strokes;
      r[i].stroke.id != r[j].stroke.id
  {
    MigratedIdsDistinct(tab.id, i, j, now, now);
  }

  /** Migrating a tab twice is migrating it once: a reload never rewrites a
      migrated tab again. */
  lemma MigrateTabIdempotent(tab: StoredTab, now: string, later: string)
    ensures MigrateTab(MigrateTab(tab, now), later) == MigrateTab(tab, now)
  {
    var once := MigrateTab(tab, now);
    assert !NeedsMigration(once.strokes);
  }

  function MigrateNote(note: StoredNote, now: string): (r: StoredNote)
    ensures |r.tabs| == |note.tabs|
    ensures forall k :: 0 <= k < |note.tabs| ==> r.tabs[k] == MigrateTab(note.tabs[k], now)
    ensures r.(tabs := note.tabs) == note
  {
    note.(tabs := seq(|note.tabs|, k requires 0 <= k < |note.tabs| => MigrateTab(note.tabs[k], now)))
  }

  /** The migration loop of `getInitialFileSystem` (storageService.ts:13-30),
      over the notes of the parsed store and the tabs of each note. */
  method MigrateFileSystem(fs: StoredFileSystem, now: string) returns (r: StoredFileSystem)
    ensures r.notes.Keys == fs.notes.Keys
    ensures forall id :: id in fs.notes ==> r.notes[id] == MigrateNote(fs.notes[id], now)
  {
    var notes := fs.notes;
    var pending := fs.notes.Keys;
    while pending != {}
      invariant pending <= fs.notes.Keys && notes.Keys == fs.notes.Keys
      invariant forall id :: id in fs.notes && id !in pending ==> notes[id] == MigrateNote(fs.notes[id], now)
      invariant forall id :: id in pending ==> notes[id] == fs.notes[id]
      decreases pending
    {
      var id :| id in pending;
      var note := notes[id];
      var tabs := note.tabs;
      var k := 0;
      while k < |tabs|
        invariant 0 <= k <= |tabs| == |note.tabs|
        invariant forall j :: 0 <= j < k ==> tabs[j] == MigrateTab(note.tabs[j], now)
        invariant forall j :: k <= j < |tabs| ==> tabs[j] == note.tabs[j]
      {
        var tab := tabs[k];
        if tab.height.None? {
          tab := tab.(height := Some(INITIAL_CANVAS_HEIGHT));
        }
        if |tab.strokes| > 0 && tab.strokes[0].Legacy? {
          tab := tab.(strokes := MigrateStrokes(tab.id, tab.strokes, now));
        }
        tabs := tabs[k := tab];
        k := k + 1;
      }
      assert note.(tabs := tabs) == MigrateNote(fs.notes[id], now);
      notes := notes[id := note.(tabs := tabs)];
      pending := pending - {id};
    }
    r := StoredFileSystem(notes);
  }

  // ---------------------------------------------------------------------------
  // The stored form of the typed notes

  /** A stored tab that the editor can use: it has a height and only records. */
  predicate IsCurrent(tab: StoredTab) {
    tab.height.Some? && forall i :: 0 <= i < |tab.strokes| ==> tab.strokes[i].Rec?
  }

  /** A stroke list in one format only. */
  predicate Homogeneous(strokes: seq<StoredStroke>) {
    forall i :: 0 <= i < |strokes| ==> strokes[i].Legacy? == strokes[0].Legacy?
  }

  /** A tab whose strokes are all in one format is usable after migration. */
  lemma MigrateMakesCurrent(tab: StoredTab, now: string)
    requires Homogeneous(tab.strokes)
    ensures IsCurrent(MigrateTab(tab, now))
  {
  }

  function StoreTab(tab: Tab): StoredTab {
    StoredTab(tab.id, tab.name, seq(|tab.strokes|, i requires 0 <= i < |tab.strokes| => Rec(tab.strokes[i])), Some(tab.height))
  }

  function LoadTab(tab: StoredTab): Tab
    requires IsCurrent(tab)
  {
    Tab(tab.id, tab.name, seq(|tab.strokes|, i requires 0 <= i < |tab.strokes| => tab.strokes[i].stroke), tab.height.value)
  }

  /** A tab saved in the current format loads back unchanged, and migration
      leaves it alone. */
  lemma StoredTabRoundTrip(tab: Tab, now: string)
    ensures IsCurrent(StoreTab(tab))
    ensures LoadTab(StoreTab(tab)) == tab
    ensures MigrateTab(StoreTab(tab), now) == StoreTab(tab)
  {
    var s := StoreTab(tab);
    assert LoadTab(s).strokes == tab.strokes;
  }

  // ---------------------------------------------------------------------------
  // Default notes

  /** The welcome note of an empty store (storageService.ts:39-59). */
  function FallbackFileSystem(now: string): (r: FileSystem)
    ensures r.notes.Keys == {"welcome-note"}
    ensures var note := r.notes["welcome-note"];
      && note.id == "welcome-note"
      && note.tabs == [Tab("default-tab-1", "Tab 1", [], INITIAL_CANVAS_HEIGHT)]
      && note.activeTabId == note.tabs[0].id
  {
    var initialTab := Tab("default-tab-1", "Tab 1", [], INITIAL_CANVAS_HEIGHT);
    var initialNote := NoteFile("welcome-note", "Welcome Note", [initialTab], initialTab.id, now, now);
    FileSystem(map["welcome-note" := initialNote])
  }

  /** `createNewNote` (storageService.ts:62-71): `ms` is the `Date.now()` both ids
      are built from, `now` the ISO timestamp. */
  function CreateNewNote(name: string, ms: nat, now: string): (r: NoteFile)
    ensures r.name == name && r.createdAt == now && r.updatedAt == now
    ensures |r.tabs| == 1 && r.tabs[0].name == "Tab 1" && r.tabs[0].strokes == [] && r.tabs[0].height == INITIAL_CANVAS_HEIGHT
    ensures r.activeTabId == r.tabs[0].id
  {
    var newTabId := "tab-" + Strings.Decimal(ms);
    NoteFile("note-" + Strings.Decimal(ms), name, [Tab(newTabId, "Tab 1", [], INITIAL_CANVAS_HEIGHT)], newTabId, now, now)
  }

  /** A new note opens on its only tab, and the next tab added to it is named
      "Tab 2". */
  lemma NewNoteOpensOnItsTab(name: string, ms: nat, now: string, newTabId: string, later: string)
    ensures var note := CreateNewNote(name, ms, now);
      && NoteEditor.ActiveTab(note) == Some(note.tabs[0])
      && NoteEditor.AddTab(note, newTabId, later).tabs[1].name == "Tab 2"
  {
    var note := CreateNewNote(name, ms, now);
    assert Strings.Decimal(2) == "2";
    assert NoteEditor.FindTab(note.tabs, note.activeTabId) == Some(0);
  }

  /** The welcome note opens on its empty tab. */
  lemma FallbackOpensOnItsTab(now: string)
    ensures var note := FallbackFileSystem(now).notes["welcome-note"];
      NoteEditor.ActiveTab(note) == Some(Tab("default-tab-1", "Tab 1", [], INITIAL_CANVAS_HEIGHT))
  {
    var note := FallbackFileSystem(now).notes["welcome-note"];
    assert NoteEditor.FindTab(note.tabs, note.activeTabId) == Some(0);
  }
}
