# Stroke undo/redo timeline of the stroke-order practice page

The practice page (`StrokeOrderPracticePage`) lets a user pick a hiragana or
katakana character. The canvas is seeded with the glyph, and the user traces
it with mouse or touch. After each finished stroke the page stores a
snapshot of the whole canvas (a data URL). Undo and redo buttons move
through those snapshots. The whole timeline lives in two global browser-storage
keys. `strokeHistory` holds the list of snapshots. `historyIndex` holds the
cursor. No in-memory copy exists: every handler reads the keys, computes, and
writes them back.

The model has two modules.

- `StrokeTimeline` (timeline.dfy) holds the timeline as a value.
  - `Timeline(history, index)` pairs the list with the cursor.
  - Pure functions model the three operations: `Commit` (end of a stroke), `UndoStep` and `RedoStep`.
  - `Valid` is the range invariant `-1 <= index <= |history| - 1`, plus "index is -1 exactly when the list is empty".
  - `Displayed` says what the canvas should show for a timeline.
  - `Run` applies a sequence of user actions. The lemmas about all of these are in the same module.
- `PracticePage` (practice_page.dfy) holds the page as a class `Page`.
  - It has the two storage keys as fields. Each key is an `Option`, because a key can be absent.
  - It also has the `isDrawing` flag, the selected character, and a ghost `canvas` picture.
  - `mounted` and `hasContext` stand for the canvas element and its 2D context being available.
  - Each handler is an imperative method that follows the source's steps: `SelectCharacter` runs the selection effect, and then come `StartDrawing`, `Draw`, `EndDrawing`, `Undo`, `Redo` and `LoadCanvasState`.
  - Each handler is proved against the pure functions. For example, `EndDrawing` ensures `Stored() == Commit(old(Stored()), imageData)`.
  - `InSync` is the display invariant: the canvas shows the snapshot under the cursor, or the seeded glyph at cursor -1, and the stored timeline is `Valid`. The selection effect (with a context) and every commit establish it. Undo and redo preserve it.

Snapshots are opaque strings. `canvas.toDataURL()` becomes the `imageData`
parameter of `EndDrawing`. The canvas then shows `Image(imageData)`, since
the snapshot encodes exactly what is on the canvas. `Load` is the value
that undo and redo pass to `loadCanvasState`. It is one of three things: nothing (the
guard returned early), a stored snapshot, or JavaScript's `undefined` (an
array read outside the list, which never loads).

## Behaviour of the code worth knowing

- Undo at cursor 0 does nothing (app/hiragana/page.tsx:168). No undo returns the canvas to the seeded glyph, and undo never brings the cursor back to -1. Undo followed by redo round-trips only from cursor 1 or more (`UndoRedoRoundTrip`). At cursor 0, with a second snapshot present, undo then redo moves to snapshot 1 (`UndoRedoAtFirstStroke`). In the scenario "commit A, commit B, undo, undo, redo", the second undo is a no-op and the redo shows B (`PracticeScenario`, `PracticePage.PracticeSession`).
- `endDrawing` does not check `isDrawing` (app/hiragana/page.tsx:148-150). A mouse-leave or touch-end with no stroke in progress still commits a snapshot of the unchanged canvas and drops the redo tail. To reach the undo or redo button with a mouse, the pointer leaves the canvas, so the snapshot just committed on mouse-up is committed a second time; the first undo after that loads the same picture again (`DoubleCommitUndo`).
- `startDrawing` does not check the flag either, so a press while drawing just raises it again.
- Undo and redo are not disabled while drawing.
- Selecting a character does not lower `isDrawing`.
- The selection effect depends on `selectedCharacter` (app/hiragana/page.tsx:81). Clicking the character that is already selected therefore resets nothing. `SelectCharacter` resets only when the value changes.
- Before any character is selected, the keys hold whatever an earlier visit left, and strokes can already be committed on top of it. Hence the `Page` constructor takes the leftover keys. `SliceTo` models JavaScript's `slice(0, end)` exactly, with a negative end counting from the back. `Commit` is therefore faithful even on an inconsistent leftover timeline. A reload does not bring the drawing back: the canvas starts blank whatever the keys hold, undo and redo before any selection load snapshots left by the earlier visit, and the first selection wipes them.

## Model

| member | source | states |
|---|---|---|
| `PracticePage.Page.constructor` | app/hiragana/page.tsx:45-51 | the page starts with `isDrawing` false, no selection and a blank canvas; the storage keys keep what an earlier visit left |
| `PracticePage.Page.GetHistory` | app/hiragana/page.tsx:54-55 | an absent `strokeHistory` key reads as the empty list, a present one as its value |
| `PracticePage.Page.GetHistoryIndex` | app/hiragana/page.tsx:57-58 | an absent `historyIndex` key reads as -1, a present one as its value |
| `PracticePage.Page.SetHistoryLocal` | app/hiragana/page.tsx:60-62 | writing the list makes the key present with exactly that list |
| `PracticePage.Page.SetHistoryIndexLocal` | app/hiragana/page.tsx:64-66 | writing the cursor makes the key present with exactly that cursor |
| `StrokeTimeline.Cleared` | app/hiragana/page.tsx:79-80 | the reset value is a valid timeline with no snapshots, so its cursor is -1 |
| `PracticePage.Page.SelectCharacter` | app/hiragana/page.tsx:69-81 | when the selection changes to a non-empty character and the canvas is mounted, both keys are overwritten with `[]` and -1, whatever they held, and the canvas shows the glyph if a context exists (then `InSync` holds); otherwise the keys and canvas are untouched; `isDrawing` is never changed |
| `PracticePage.Page.StartDrawing` | app/hiragana/page.tsx:116-129 | the flag is raised when canvas and context are available, and otherwise keeps its value |
| `PracticePage.Page.Draw` | app/hiragana/page.tsx:132-145 | a segment is stroked exactly when the flag is up and canvas and context are available; nothing changes otherwise |
| `StrokeTimeline.SliceTo` | app/hiragana/page.tsx:157 | `slice(0, end)` gives a prefix of the list: of length `end` inside the list, the whole list past its end, and `max(0, length + end)` elements for a negative end |
| `StrokeTimeline.Commit` | app/hiragana/page.tsx:156-159 | after a commit the list is non-empty, the cursor is on its last element, that element is the new snapshot, everything before it is a prefix of the old list, and the timeline is valid from any starting state |
| `PracticePage.Page.EndDrawing` | app/hiragana/page.tsx:148-163 | with the canvas mounted, and whether or not a stroke was in progress: the flag is lowered, both keys are written, the stored timeline is `Commit` of the old one, the canvas shows the new snapshot, and `InSync` holds; with no canvas, nothing changes |
| `StrokeTimeline.CommitDropsRedoTail` | app/hiragana/page.tsx:156-158 | from a valid timeline, a commit leaves `history[..index+1] + [snapshot]` at cursor `index+1`, so the kept prefix is unchanged and every redo entry is dropped |
| `StrokeTimeline.CommitOnTop` | app/hiragana/page.tsx:157-159 | with the cursor on the last snapshot, a commit simply appends |
| `StrokeTimeline.CommitExample` | app/hiragana/page.tsx:156-158 | `[s0,s1,s2]` at cursor 1, then commit `s3`, gives `[s0,s1,s3]` at cursor 2 |
| `StrokeTimeline.UndoThenCommit` | app/hiragana/page.tsx:157-169 | a commit after an undo from cursor `i > 0` leaves `history[..i] + [snapshot]` at cursor `i`, replacing the snapshot undone and all later ones |
| `StrokeTimeline.At` | app/hiragana/page.tsx:172 | an array read gives the element inside the list and `undefined` outside it |
| `StrokeTimeline.UndoStep` | app/hiragana/page.tsx:166-172 | undo never changes the list; at cursor 0 or below it changes nothing and loads nothing; above 0 it moves the cursor to `index-1` and loads that element; it never lowers a cursor of 0 or more below 0; it keeps `Valid` and then never reads outside the list |
| `PracticePage.Page.Undo` | app/hiragana/page.tsx:166-173 | the stored timeline and the returned load are `UndoStep` of the old timeline; only the cursor key is written, and only past the guard; the canvas shows the loaded snapshot; `InSync` is preserved |
| `StrokeTimeline.RedoStep` | app/hiragana/page.tsx:176-182 | redo never changes the list; at cursor `length-1` or beyond it changes nothing and loads nothing; below that it moves the cursor to `index+1` and loads that element; it keeps `Valid` and then never reads outside the list |
| `PracticePage.Page.Redo` | app/hiragana/page.tsx:176-183 | the stored timeline and the returned load are `RedoStep` of the old timeline; only the cursor key is written, and only past the guard; the canvas shows the loaded snapshot; `InSync` is preserved |
| `StrokeTimeline.AfterLoad` | app/hiragana/page.tsx:186-197 | loading a snapshot replaces the picture; nothing or `undefined` leaves it as it was |
| `PracticePage.Page.LoadCanvasState` | app/hiragana/page.tsx:186-197 | the canvas takes the loaded snapshot when canvas and context are available, and is unchanged otherwise |
| `StrokeTimeline.DoubleCommitUndo` | app/hiragana/page.tsx:148-173 | committing the same snapshot twice (mouse-up, then mouse-leave on the way to a button) and then undoing keeps the cursor on a copy of that snapshot and loads it again |
| `StrokeTimeline.UndoRedoRoundTrip` | app/hiragana/page.tsx:166-183 | from a valid timeline with cursor at least 1, undo then redo returns to the same timeline and loads the snapshot that was shown before |
| `StrokeTimeline.UndoRedoAtFirstStroke` | app/hiragana/page.tsx:168-182 | at cursor 0 with two or more snapshots, undo is a no-op and the following redo moves to snapshot 1 |
| `StrokeTimeline.StepsKeepDisplay` | app/hiragana/page.tsx:166-183 | from a valid timeline, the picture after loading what undo or redo returns is the one `Displayed` prescribes for the new cursor |
| `StrokeTimeline.CommitAndResetDisplay` | app/hiragana/page.tsx:79-159 | after a commit the cursor designates the new snapshot, and after a reset it designates the seeded glyph |
| `StrokeTimeline.Perform` | app/hiragana/page.tsx:69-183 | every user action keeps `Valid`, and a selection of a new character gives the reset value whatever the prior state |
| `StrokeTimeline.RunKeepsValid` | app/hiragana/page.tsx:69-183 | every sequence of selections, commits, undos and redos from a valid timeline ends in a valid timeline |
| `StrokeTimeline.SessionKeepsValid` | app/hiragana/page.tsx:69-183 | starting from a reset, every such sequence keeps `-1 <= index <= length-1`, with -1 only on an empty list |
| `StrokeTimeline.StrokesAppend` | app/hiragana/page.tsx:148-163 | commits with the cursor on the last snapshot append the snapshots in order and keep the cursor on the last one |
| `StrokeTimeline.CommitsOnly` | app/hiragana/page.tsx:148-163 | from a reset, commits with no undo in between give exactly the committed snapshots with the cursor at `length-1` |
| `StrokeTimeline.PracticeScenario` | app/hiragana/page.tsx:148-183 | commit A, commit B, undo shows A at cursor 0, a second undo does nothing, redo shows B at cursor 1 |
| `PracticePage.PracticeSession` | app/hiragana/page.tsx:69-183 | the page's handlers run the same scenario from a fresh character selection, whatever the keys held before, and end in sync with B shown |

## Left out

- Canvas rendering is abstracted to the picture values `Blank`, `Glyph`, `Image` and `Sketch`. This covers `clearRect`, `fillText`, `beginPath`/`moveTo`/`lineTo`/`stroke`, and `drawImage`. The pixels are browser graphics.
- `toDataURL` becomes the `imageData` parameter of `EndDrawing`. The encoding itself is browser code.
- `loadCanvasState` is asynchronous: the image is drawn in `onload`. The model applies it at once. A stroke drawn before the image finishes loading would be painted over. That ordering is not modelled.
- The coordinate scaling in `startDrawing` and `draw` is left out, because it is floating-point arithmetic over on-screen geometry. The path's points are left out too. `Draw` records only that ink was added (`Sketch`).
- `resizeCanvas` and the resize listener are left out, because they are layout code. They never touch the storage keys. A window resize clears the canvas and redraws the glyph, and this can break `InSync` while the cursor is at 0 or more.
- The model holds the storage values as typed fields. It leaves out the JSON and `parseInt` serialisation, and values that would not parse. As a consequence, the persistence round trip holds trivially, and a corrupt key cannot be represented. A write rejected by a full storage quota is not modelled either.
- React's deferred state updates are taken as immediate. The `isDrawing` value that `draw` sees is the one set by the latest `startDrawing` or `endDrawing`.
- `playSound` is left out. It covers audio playback, the speech-synthesis fallback, timers and `alert`, all asynchronous browser I/O.
- The hiragana and katakana lists, the set selector, the translation lookup and the markup are left out. They are static data and presentation.
- app/page.tsx is a static landing page and is not part of this model.
