# Vector notes: a verified model of the canvas, the editor and the store

This project models the core of a small note-taking application for drawing vector strokes. Each note has several tabs, and each tab holds a canvas of strokes. The model covers three parts:

- **The canvas** (`components/Canvas.tsx`):
  - the two geometry helpers: the bounding box of a stroke list and the even-odd ray-casting point-in-polygon test;
  - the pointer-gesture engine, which turns pointer events into a committed pen stroke, a lasso selection, a drag of the selection, or a pan request;
  - one frame of the inertial scroll that follows a pan.
- **The note editor** (`components/NoteEditor.tsx`):
  - the copy-on-write edits of a note that it hands to `onUpdate`: tab click, add tab, strokes change, undo, tab rename and note rename;
  - its local name-editing state.
- **The store** (`services/storageService.ts`):
  - the migration a loaded store goes through: default tab heights, and legacy point-array strokes turned into stroke records;
  - the welcome note used when nothing is stored;
  - `createNewNote`.

Files:

- `types.dfy` (module `Types`): the data model of `types.ts`.
- `strings.dfy` (module `Strings`): the JavaScript string operations the source relies on:
  - decimal rendering of a non-negative integer (template literals such as `` `Tab ${n}` ``);
  - `String.prototype.trim` over the ECMAScript white-space set.
- `geometry.dfy` (module `Geometry`): `getStrokesBoundingBox` and `isPointInPolygon`. Each is a method with its loop, proved equal to a recursive specification function.
- `canvas.dfy` (module `Canvas`):
  - the stroke lists the pointer handlers emit;
  - the class `CanvasEngine`, which holds the component's gesture state and has one method per handler;
  - the inertia frame.
- `canvas_scenarios.dfy` (module `CanvasScenarios`): worked gestures (a pen stroke, a tap, a two-step drag of the selection, two-finger pans), replayed through the engine's contracts.
- `note_editor.dfy` (module `NoteEditor`): the note transforms, and the class `EditorState` for the name-editing fields.
- `storage.dfy` (module `Storage`): the stored, looser form of the data, the migration (an imperative loop over notes and tabs), and the default notes.

Modelling choices:

- Coordinates, widths, heights and velocities are exact `real`s.
- The bounding-box accumulators start at ±Infinity. They are modelled as an extended real (`Bound`). This matters for a non-empty list of strokes that have no points: the source then returns a box of infinities, and no point lies in it.
- `selected` is optional in `types.ts`, so it is `Option<bool>`. A stroke counts as selected only when the flag is `Some(true)`, which is the source's truthiness test.
- The clock is a parameter wherever the source reads it:
  - `now` is either the `Date.now()` value that ids are built from or the ISO timestamp of an edit;
  - `newTabId` is the id of a new tab.
- A handler that calls `onStrokesChange` or `onPan` returns a `Command`.
- An editor edit that calls `onUpdate` returns `Some(note)`; one that does not returns `None`.

## Model

| member | source | states |
|---|---|---|
| Types.Deselect | components/Canvas.tsx:298 | Every stroke is kept with its flag set to not selected, in the same order and the same number. |
| Strings.DecimalRoundTrip | components/NoteEditor.tsx:52 | The decimal rendering used in ids and tab names reads back as the same number. |
| Strings.DecimalInjective | components/NoteEditor.tsx:52 | Distinct numbers render as distinct strings. |
| Strings.Trim | components/NoteEditor.tsx:34 | The result is the input with its leading and trailing white space removed. It has white space at neither end. It is empty exactly when the input is all white space. |
| Strings.TrimIdempotent | components/NoteEditor.tsx:91 | Trimming a trimmed string changes nothing. |
| Geometry.BoxOfTight | components/Canvas.tsx:19-27 | After a non-empty list of points, the four accumulators are finite and contain every point. Each of them equals some point's coordinate. |
| Geometry.BoundingBox | components/Canvas.tsx:17-29 | The result is null exactly when there are no strokes. When there are points, the box is finite, contains every point, and each bound is attained. With strokes but no points, the box contains nothing. |
| Geometry.AccumulatePoints | components/Canvas.tsx:21-26 | The inner loop leaves the four accumulators as they would be after visiting the points seen so far and then this stroke's points. |
| Geometry.GetStrokesBoundingBox | components/Canvas.tsx:17-29 | The nested loop over strokes and points returns exactly `BoundingBox`. |
| Geometry.IsPointInPolygon | components/Canvas.tsx:32-43 | The loop, with `j` trailing `i` cyclically, returns the parity of the edges crossed (`PointInPolygon`). |
| Geometry.CrossesSymmetric | components/Canvas.tsx:38-39 | Whether an edge is crossed does not depend on its direction. |
| Geometry.DegeneratePolygonContainsNothing | components/Canvas.tsx:32-43 | A polygon with fewer than three vertices contains no point. |
| Geometry.CrossingWithinEdge | components/Canvas.tsx:39 | The crossing abscissa lies between the abscissae of the edge's ends. |
| Geometry.NoCrossingNoParity | components/Canvas.tsx:33-41 | If no edge is crossed, the flag stays false. |
| Geometry.OutsideVerticesContainsNothing | components/Canvas.tsx:32-43 | A point is outside when every vertex is above it, or every vertex is at or below it, or every vertex is at or left of it. |
| Geometry.SquareLassoExample | components/Canvas.tsx:32-43 | For the square (0,0),(0,10),(10,10),(10,0), the point (5,5) is inside and (20,20) is outside, at any pressures. |
| Canvas.SelectedStrokes | components/Canvas.tsx:205 | It keeps exactly the selected strokes. |
| Canvas.HitsSelectionIff | components/Canvas.tsx:204-207 | A lasso press hits the selection exactly when some selected point is at or left of it, one at or right of it, one at or above it and one at or below it. This is the unpadded box test. |
| Canvas.Translate | components/Canvas.tsx:257-261 | Every point of a moved stroke is shifted by (dx, dy) with its pressure kept. Everything else about the stroke is kept. |
| Canvas.MoveSelected | components/Canvas.tsx:256-264 | The list keeps its length and order. Unselected strokes are identical. Selected strokes are translated. Selection is unchanged. |
| Canvas.MoveByZeroIsIdentity | components/Canvas.tsx:254 | A zero move would return the same list, so emitting nothing loses nothing. |
| Canvas.MoveSteps | components/Canvas.tsx:250-268 | Two move steps in a row equal one step by the sum of their deltas, because the anchor is reset each time. |
| Canvas.CommitPenStroke | components/Canvas.tsx:290-298 | The old strokes come first, each the original with `selected` set to false. Then exactly one new unselected stroke follows, with the buffered points, the color and the width. |
| Canvas.ApplyLasso | components/Canvas.tsx:301-307 | The list keeps its length and order. Each stroke is the original with `selected` set to whether one of its points is inside the lasso. |
| Canvas.SquareLassoSelects | components/Canvas.tsx:301-306 | With the square lasso, a stroke through (5,5) is selected and a stroke at (20,20) is not, whatever the pressures sampled. |
| Canvas.InertiaTerminates | components/Canvas.tsx:153-171 | The inertia loop stops. Starting from speed v, it stops within k + 1 frames when abs(v) <= 0.1 + 0.005·k. |
| Canvas.InertiaFrameBound | components/Canvas.tsx:162 | The frame count n it gives for speed v satisfies abs(v) <= 0.1 + 0.005·(n − 1). |
| Canvas.RunInertia | components/Canvas.tsx:153-171 | Running frames while one is scheduled always ends with no frame scheduled. If inertia was running, the velocity is reset to 0 after at least 1 and at most `InertiaFrameBound(v)` frames. |
| Canvas.CanvasEngine.constructor | components/Canvas.tsx:48-58 | The engine starts idle: no gesture, no pointers, no inertia. |
| Canvas.CanvasEngine.PointerDown | components/Canvas.tsx:182-216 | The pointer is always added. A touch with finger drawing off never starts drawing or moving. It starts a pan only as the sole pointer, with velocity reset to 0 and the last y set. Otherwise, a lasso press on the selection starts a move anchored at the point. Otherwise drawing starts with that point. |
| Canvas.CanvasEngine.PointerMove | components/Canvas.tsx:218-270 | While panning with one pointer, it requests a pan of (lastY − y)·1.2, sets lastY to y, and smooths the velocity when time has passed. With more pointers it drops the pan and requests nothing. When drawing, it appends the point. When moving, a zero delta emits nothing; otherwise it emits `MoveSelected` and re-anchors. |
| Canvas.CanvasEngine.PointerUp | components/Canvas.tsx:272-316 | The pointer is removed. Lifting the last pointer of a pan ends the pan, and inertia starts exactly when the speed exceeds 0.1. A pen gesture of at least 2 points emits `CommitPenStroke` with id `stroke-<now>`. A lasso of at least 3 points emits `ApplyLasso`. Anything else emits nothing. Afterwards there is no drawing, no moving, no anchor and an empty buffer. |
| Canvas.CanvasEngine.InertiaFrame | components/Canvas.tsx:154-167 | It requests a pan of velocity·16 and multiplies the velocity by 0.95. It stops, with the velocity reset to 0, once the speed is at most 0.1. No other state changes. |
| NoteEditor.FindTab | components/NoteEditor.tsx:26 | It returns the first index whose tab has the id, or nothing when no tab has it. |
| NoteEditor.ActiveTabIndex | components/NoteEditor.tsx:25-27 | The active tab is the first tab whose id is `activeTabId`, else the first tab. A note without tabs has none. |
| NoteEditor.TabClick | components/NoteEditor.tsx:41-45 | Clicking the active tab gives no update. Any other id becomes `activeTabId`, and only it and the timestamp change. |
| NoteEditor.TabClickShowsTab | components/NoteEditor.tsx:41-45 | When ids are unique, the clicked tab is the one shown afterwards. |
| NoteEditor.AddTab | components/NoteEditor.tsx:47-62 | The old tabs are unchanged, followed by an empty tab named "Tab n+1" with height 2000. That tab is made active. |
| NoteEditor.AddTabShowsNewTab | components/NoteEditor.tsx:47-62 | With a fresh id, the new tab is the one shown, and tab ids stay unique. |
| NoteEditor.ReplaceStrokes | components/NoteEditor.tsx:65-67 | Exactly the tabs with the given id take the new strokes. The order and every other tab are kept. |
| NoteEditor.StrokesChange | components/NoteEditor.tsx:64-69 | The tabs sharing the active tab's id take the strokes, and only the tabs and the timestamp change. A note without tabs keeps no tabs and gets a new timestamp. |
| NoteEditor.StrokesChangeOnlyActiveTab | components/NoteEditor.tsx:64-69 | When ids are unique, only the active tab changes, and it is still the one shown, with the new strokes. |
| NoteEditor.ActiveTabSeesStrokes | components/NoteEditor.tsx:64-69 | Whatever the ids, the tab shown after a strokes change holds exactly the new strokes. |
| NoteEditor.UndoStrokes | components/NoteEditor.tsx:75 | There is one stroke fewer. Each remaining stroke is the original at that position, deselected. |
| NoteEditor.Undo | components/NoteEditor.tsx:71-77 | An empty active tab gives no update. Otherwise the update is a strokes change to the undone list. |
| NoteEditor.UndoDropsLastStroke | components/NoteEditor.tsx:71-77 | After an undo, the shown tab has n−1 strokes. All are unselected and otherwise equal to the first n−1 strokes. |
| NoteEditor.RenameTab | components/NoteEditor.tsx:93-95 | Exactly the tabs with the edited id take the name. The order and every other tab are kept. |
| NoteEditor.SavedTabName | components/NoteEditor.tsx:89-98 | There is an update exactly when an id is being edited and the typed name trims to something non-empty. The edited tab then gets the trimmed name. |
| NoteEditor.SavedTabNameOnlyThatTab | components/NoteEditor.tsx:89-98 | When ids are unique, exactly the edited tab is renamed, and the name does not start with white space. |
| NoteEditor.RenamedNote | components/NoteEditor.tsx:33-36 | There is an update exactly when the trimmed name is non-empty and differs from the current name. Only the name and the timestamp change. |
| NoteEditor.RenameNoteSettles | components/NoteEditor.tsx:33-36 | Blurring again with the same text changes nothing. |
| NoteEditor.EditorState.constructor | components/NoteEditor.tsx:15-17 | The field shows the note's name, and no tab is being edited. |
| NoteEditor.EditorState.NoteNameChange | components/NoteEditor.tsx:29-31 | The field takes the typed text. |
| NoteEditor.EditorState.NoteNameBlur | components/NoteEditor.tsx:33-39 | The update is `RenamedNote` of the field. Without an update, the field reverts to the note's name. |
| NoteEditor.EditorState.StartTabRename | components/NoteEditor.tsx:79-83 | The tab's id and name become the editing state. |
| NoteEditor.EditorState.TabNameChange | components/NoteEditor.tsx:85-87 | The editing name takes the typed text. |
| NoteEditor.EditorState.SaveTabName | components/NoteEditor.tsx:89-100 | The update is `SavedTabName` of the editing state. Editing ends in every case. |
| Storage.MigratedIdsDistinct | services/storageService.ts:22 | Two migrated strokes of one tab get different ids, even when the clock reads differently for them. |
| Storage.MigrateStrokes | services/storageService.ts:20-28 | A list whose first element is a bare point array becomes records, one for one and in order. Each record keeps its points and gets the id `migrated-<tab>-<index>-<now>`, color #FFFFFF, width 3 and not selected. Any other list is unchanged. |
| Storage.MigratedStrokeIdsDistinct | services/storageService.ts:21-22 | No two migrated strokes of one tab share an id. |
| Storage.MigrateTab | services/storageService.ts:14-29 | A missing height becomes 2000 and a present height is kept. The strokes are migrated, and the id and name are kept. |
| Storage.MigrateTabIdempotent | services/storageService.ts:13-30 | Migrating a migrated tab changes nothing. |
| Storage.MigrateNote | services/storageService.ts:13-30 | Every tab is migrated, the tab count is kept, and the rest of the note is unchanged. |
| Storage.MigrateFileSystem | services/storageService.ts:13-30 | The loop over notes and tabs keeps the note ids. Each note ends up as `MigrateNote` of itself. |
| Storage.MigrateMakesCurrent | services/storageService.ts:16-28 | A tab whose strokes are all in one format has a height and only records after migration. |
| Storage.StoredTabRoundTrip | services/storageService.ts:13-30 | A tab stored in the current format loads back as the same tab, and migration leaves it alone. |
| Storage.FallbackFileSystem | services/storageService.ts:39-59 | There is exactly one note, 'welcome-note'. Its only tab is 'default-tab-1', named 'Tab 1', empty, 2000 high and active. |
| Storage.FallbackOpensOnItsTab | services/storageService.ts:39-59 | The welcome note opens on that tab. |
| Storage.CreateNewNote | services/storageService.ts:62-71 | The note has the given name and exactly one empty tab, 'Tab 1', 2000 high. `activeTabId` is that tab's id. |
| Storage.NewNoteOpensOnItsTab | services/storageService.ts:62-71 | A new note opens on its tab, and the next tab added to it is named "Tab 2". |

## Left out

- Canvas drawing is not modelled: `redrawCanvas`, the resize and redraw effects, and the dashed, padded selection outline. They are 2D-context calls and DOM sizing.
- `getPoint`, `setPointerCapture` and `releasePointerCapture` are not modelled. Points arrive already in canvas coordinates.
- `requestAnimationFrame` scheduling is reduced to the `inertiaRunning` flag. One scheduled frame is the `InertiaFrame` method, and `RunInertia` runs frames back to back. `startInertiaScroll` is modelled by setting the flag, and `cancelAnimationFrame` by clearing it. Pointer events that arrive between frames are not interleaved with `RunInertia`.
- Canvas.InertiaTerminates: proves a linear bound on the number of frames, not the tighter logarithmic bound log(0.1/abs(v))/log(0.95).
- React state batching and stale closures are not modelled. Each handler sees the state left by the previous handler, as if every `setState` had taken effect.
- `onStrokesChange` and `onPan` are returned as commands rather than called. Their effect on the host is the host's business.
- JavaScript numbers are modelled as exact reals. Rounding, NaN, and infinite coordinates from the platform are outside the model. The only infinities modelled are the ±Infinity starts of the bounding-box accumulators.
- `localStorage`, `JSON.parse` and the catch path that removes a corrupt entry are not modelled. The model starts from the parsed store.
- The stored form has a field for `strokes` in every tab. A tab without one is outside the model; the source skips its stroke migration.
- Storage.MigrateStrokes: in a list that starts with a bare point array, a later element that is already a record is kept as it is. The source would wrap that record object as the `points` of a new stroke, which the typed model cannot represent.
- Storage.CreateNewNote: the two `Date.now()` calls for the note id and the tab id are taken as one reading `ms`, and the two `new Date().toISOString()` calls for `createdAt` and `updatedAt` (storageService.ts:69-70) as one timestamp `now`. The per-stroke `Date.now()` of the migration is one reading `now`; `MigratedIdsDistinct` allows two readings.
- NoteEditor.Undo: for a note without tabs the source throws when it reads `strokes` of the missing active tab. The model gives no update then. No such note can reach the handler, because rendering it already fails at the same read.
- Storage.FallbackFileSystem: `createdAt` and `updatedAt` are both the one timestamp `now`. The source reads the clock twice for them (storageService.ts:51-52), so they may differ slightly.
- The source moves the editing focus with `setTimeout` and renders JSX. Neither is modelled.
- `App.tsx`, `FileBrowser.tsx` and `ToolPalette.tsx` are not part of this model.

Behaviour of the code worth knowing (the model follows the code):

- In `Canvas.tsx`, the move hit test compares the press against the unpadded box of the selected strokes. Only the drawn selection outline is padded by 5.
- In `Canvas.tsx`, several gesture flags can be true at once. For example, a touch pan can be running while a mouse press starts drawing, because pointer-down only checks the pan condition for touch input.
- In `Canvas.tsx`, a second finger does not end a pan by itself. Pointer-down returns without touching the pan state, and only the next pointer-move with several pointers down drops the pan. If both fingers are lifted without a move in between, the pan ends as a one-finger pan does and inertia starts (`CanvasScenarios.SecondFingerWithoutMoveKeepsInertia`).
- The editor never passes `isFingerDrawingEnabled` or `onPan` to the canvas. The model treats them as inputs (`Props.fingerDrawing`, the `Pan` command).
